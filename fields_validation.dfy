/** FieldsValidation: run the DTO's rules and, when any fails, throw one
    NotValidFieldsException that lists every violation as "path: message". */
module FieldsValidation {
  import opened Dates
  import opened Users
  import opened RequestRules

  const Separator: string := ": "

  /** Returning normally, or throwing NotValidFieldsException with its list. */
  datatype Outcome = Pass | Fail(messages: seq<string>)

  /** One list entry: the property path, the separator, the message. */
  function Entry(v: Violation): (e: string)
    ensures |e| == |v.path| + 2 + |MessageText(v.message)|
    ensures e[..|v.path|] == v.path
    ensures e[|v.path|..|v.path| + 2] == Separator
    ensures e[|v.path| + 2..] == MessageText(v.message)
  {
    v.path + Separator + MessageText(v.message)
  }

  /** The loop of validateFields: one entry per violation, in iteration order. */
  method CollectEntries(violations: seq<Violation>) returns (errorMessages: seq<string>)
    ensures |errorMessages| == |violations|
    ensures forall i :: 0 <= i < |violations| ==> errorMessages[i] == Entry(violations[i])
  {
    errorMessages := [];
    for i := 0 to |violations|
      invariant |errorMessages| == i
      invariant forall k :: 0 <= k < i ==> errorMessages[k] == Entry(violations[k])
    {
      errorMessages := errorMessages + [Entry(violations[i])];
    }
  }

  /** FieldsValidation.validateFields: `today` and `age` are the clock and the
      configured minimum age the birth-date rule reads. The violation set is
      iterated in the rule table's order. */
  method ValidateFields(dto: UserRequestDto, today: Date, age: int) returns (r: Outcome)
    requires ValidDate(today)
    ensures r.Pass? <==> Violations(dto, today, age) == []
    ensures r.Fail? ==> |r.messages| == |Violations(dto, today, age)|
    ensures r.Fail? ==> forall i :: 0 <= i < |r.messages| ==>
      r.messages[i] == Entry(Violations(dto, today, age)[i])
  {
    var violations := Violations(dto, today, age);
    if violations == [] {
      return Pass;
    }
    var errorMessages := CollectEntries(violations);
    return Fail(errorMessages);
  }

  /** No violation is dropped: each one's entry is in the thrown list, and the
      list holds nothing else. */
  lemma {:induction false} EveryViolationListed(dto: UserRequestDto, today: Date, age: int, messages: seq<string>)
    requires ValidDate(today)
    requires |messages| == |Violations(dto, today, age)|
    requires forall i :: 0 <= i < |messages| ==> messages[i] == Entry(Violations(dto, today, age)[i])
    ensures forall v :: v in Violations(dto, today, age) ==> Entry(v) in messages
    ensures forall m :: m in messages ==> exists v :: v in Violations(dto, today, age) && m == Entry(v)
  {
    var vs := Violations(dto, today, age);
    forall v | v in vs
      ensures Entry(v) in messages
    {
      var i :| 0 <= i < |vs| && vs[i] == v;
      assert messages[i] == Entry(v);
    }
    forall m | m in messages
      ensures exists v :: v in vs && m == Entry(v)
    {
      var i :| 0 <= i < |messages| && messages[i] == m;
      assert vs[i] in vs;
    }
  }
}
