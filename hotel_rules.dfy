/**
 * The hotel-document rules as the controller test states them: the stand-in
 * for `validationResult(req)`, with its `isEmpty()` presence check and its
 * `array()` list of rule violations.
 */
module HotelRules {
  import opened Documents

  /** The member names `isEmpty()` walks through, in order. */
  const RequiredFields: seq<string> := [
    "title", "description", "guestCount", "bedroomCount", "bathroomCount", "amenities",
    "hostInfo", "address", "latitude", "longitude", "rooms"
  ]

  /** Every required name is a member of the body, whatever its value. */
  predicate AllPresent(body: Body) {
    forall i :: 0 <= i < |RequiredFields| ==> RequiredFields[i] in body
  }

  /** One entry of the error list: `{ msg, param }`. */
  datatype FieldError = FieldError(msg: string, param: string)

  /**
   * `isEmpty()`: collects a "<field> is required" entry for each required
   * name missing from the body and answers whether none was collected.
   */
  method IsEmpty(body: Body) returns (empty: bool)
    ensures empty <==> AllPresent(body)
  {
    var errors: seq<FieldError> := [];
    var i := 0;
    while i < |RequiredFields|
      invariant 0 <= i <= |RequiredFields|
      invariant errors == [] <==> forall j :: 0 <= j < i ==> RequiredFields[j] in body
    {
      var field := RequiredFields[i];
      if field !in body {
        errors := errors + [FieldError(field + " is required", field)];
      }
      i := i + 1;
    }
    empty := |errors| == 0;
  }

  /** What a rule demands of the member it names. */
  datatype Check =
    | MustBeTruthy   // `!data[param]` is false
    | MustBeNumber   // `typeof data[param] === 'number'`
    | MustBeArray    // `Array.isArray(data[param])`

  datatype Rule = Rule(param: string, msg: string, check: Check)

  /** The rules of `array()`, in the order it applies them. */
  const Rules: seq<Rule> := [
    Rule("title", "Title is required", MustBeTruthy),
    Rule("description", "Description is required", MustBeTruthy),
    Rule("guestCount", "Guest count must be a valid positive number", MustBeNumber),
    Rule("bedroomCount", "Bedroom count must be a valid positive number", MustBeNumber),
    Rule("bathroomCount", "Bathroom count must be a valid positive number", MustBeNumber),
    Rule("amenities", "Amenities must be an array", MustBeArray),
    Rule("hostInfo", "Host info is required", MustBeTruthy),
    Rule("address", "Address is required", MustBeTruthy),
    Rule("latitude", "Latitude must be a valid decimal number", MustBeNumber),
    Rule("longitude", "Longitude must be a valid decimal number", MustBeNumber),
    Rule("rooms", "Rooms must be an array", MustBeArray)
  ]

  predicate Passes(body: Body, rule: Rule) {
    var v := Member(body, rule.param);
    match rule.check
    case MustBeTruthy => Truthy(v)
    case MustBeNumber => IsNumber(v)
    case MustBeArray => IsArray(v)
  }

  function ErrorOf(rule: Rule): FieldError { FieldError(rule.msg, rule.param) }

  /** The error list of a rule sequence: one entry per failing rule, in rule order. */
  function Violations(body: Body, rules: seq<Rule>): seq<FieldError>
  {
    if rules == [] then []
    else
      var last := rules[|rules| - 1];
      Violations(body, rules[..|rules| - 1]) + (if Passes(body, last) then [] else [ErrorOf(last)])
  }

  /** Extending a rule prefix by one rule adds that rule's entry, if it fails, at the end. */
  lemma ViolationsStep(body: Body, rules: seq<Rule>, k: nat)
    requires 0 < k <= |rules|
    ensures Violations(body, rules[..k]) ==
      Violations(body, rules[..k - 1]) + (if Passes(body, rules[k - 1]) then [] else [ErrorOf(rules[k - 1])])
  {
    assert rules[..k][..k - 1] == rules[..k - 1];
  }

  /**
   * `array()`: applies the rules one after another, pushing a rule's entry
   * when the rule fails; the list it returns is the error list of `Rules`.
   */
  method ErrorArray(body: Body) returns (errors: seq<FieldError>)
    ensures errors == Violations(body, Rules)
  {
    errors := [];
    var i := 0;
    while i < |Rules|
      invariant 0 <= i <= |Rules|
      invariant errors == Violations(body, Rules[..i])
    {
      var rule := Rules[i];
      if !Passes(body, rule) {
        errors := errors + [FieldError(rule.msg, rule.param)];
      }
      i := i + 1;
      ViolationsStep(body, Rules, i);
    }
    assert Rules[..i] == Rules;
  }

  /** No two rules check the same member. */
  predicate DistinctParams(rules: seq<Rule>) {
    forall i, j :: 0 <= i < j < |rules| ==> rules[i].param != rules[j].param
  }

  /** The entry every rule would contribute, in rule order. */
  function AllErrors(rules: seq<Rule>): (all: seq<FieldError>)
    ensures |all| == |rules|
  {
    seq(|rules|, i requires 0 <= i < |rules| => ErrorOf(rules[i]))
  }

  /** `xs` is `ys` with some entries deleted (order kept). */
  predicate Embeds(xs: seq<FieldError>, ys: seq<FieldError>)
    decreases |ys|
  {
    if ys == [] then xs == []
    else
      Embeds(xs, ys[..|ys| - 1]) ||
      (xs != [] && xs[|xs| - 1] == ys[|ys| - 1] && Embeds(xs[..|xs| - 1], ys[..|ys| - 1]))
  }

  /** `array()` checks exactly the names `isEmpty()` requires, in the same order. */
  lemma RulesCoverRequiredFields()
    ensures |Rules| == |RequiredFields| && DistinctParams(Rules)
    ensures forall i :: 0 <= i < |Rules| ==> Rules[i].param == RequiredFields[i]
  {
  }

  /** A rule on a missing member fails, whatever its check. */
  lemma AbsentMemberFails(body: Body, rule: Rule)
    requires rule.param !in body
    ensures !Passes(body, rule)
  {
  }

  /** Every entry comes from a failing rule and carries that rule's message and member name. */
  lemma {:induction false} ViolationOrigin(body: Body, rules: seq<Rule>, e: FieldError)
    requires e in Violations(body, rules)
    ensures exists j :: 0 <= j < |rules| && e == ErrorOf(rules[j]) && !Passes(body, rules[j])
  {
    var n := |rules|;
    var front := rules[..n - 1];
    if e in Violations(body, front) {
      ViolationOrigin(body, front, e);
      var j :| 0 <= j < |front| && e == ErrorOf(front[j]) && !Passes(body, front[j]);
      assert rules[j] == front[j];
    } else {
      assert e == ErrorOf(rules[n - 1]) && !Passes(body, rules[n - 1]);
    }
  }

  /** A rule's entry is in the list if and only if the rule fails. */
  lemma {:induction false} ViolationsMembership(body: Body, rules: seq<Rule>, i: nat)
    requires DistinctParams(rules) && i < |rules|
    ensures ErrorOf(rules[i]) in Violations(body, rules) <==> !Passes(body, rules[i])
  {
    var n := |rules|;
    var front := rules[..n - 1];
    if ErrorOf(rules[i]) in Violations(body, rules) {
      ViolationOrigin(body, rules, ErrorOf(rules[i]));
      var j :| 0 <= j < n && ErrorOf(rules[i]) == ErrorOf(rules[j]) && !Passes(body, rules[j]);
      assert i == j;
    }
    if !Passes(body, rules[i]) && i < n - 1 {
      assert front[i] == rules[i];
      ViolationsMembership(body, front, i);
    }
  }

  /** The list holds the failing rules' entries in rule order, each at most once. */
  lemma {:induction false} ViolationsInRuleOrder(body: Body, rules: seq<Rule>)
    ensures Embeds(Violations(body, rules), AllErrors(rules))
  {
    if rules != [] {
      var n := |rules|;
      var front := rules[..n - 1];
      var all := AllErrors(rules);
      assert all[..n - 1] == AllErrors(front);
      ViolationsInRuleOrder(body, front);
      var v := Violations(body, rules);
      if !Passes(body, rules[n - 1]) {
        assert v[..|v| - 1] == Violations(body, front);
        assert v[|v| - 1] == all[n - 1];
      } else {
        assert v == Violations(body, front);
        assert Embeds(v, all[..n - 1]);
      }
    }
  }

  /** The list is empty exactly when every rule passes. */
  lemma {:induction false} NoViolationsIffAllPass(body: Body, rules: seq<Rule>)
    ensures Violations(body, rules) == [] <==> forall j :: 0 <= j < |rules| ==> Passes(body, rules[j])
  {
    if rules != [] {
      var front := rules[..|rules| - 1];
      NoViolationsIffAllPass(body, front);
      if Violations(body, rules) == [] {
        forall j | 0 <= j < |rules| ensures Passes(body, rules[j]) {
          if j < |rules| - 1 { assert rules[j] == front[j]; }
        }
      }
    }
  }

  /**
   * An empty `array()` list implies `isEmpty()`: each rule fails on a missing
   * member, and the rules name every required member.
   */
  lemma NoErrorsImpliesAllPresent(body: Body)
    requires Violations(body, Rules) == []
    ensures AllPresent(body)
  {
    RulesCoverRequiredFields();
    NoViolationsIffAllPass(body, Rules);
    forall i | 0 <= i < |RequiredFields| ensures RequiredFields[i] in body {
      if RequiredFields[i] !in body {
        AbsentMemberFails(body, Rules[i]);
      }
    }
  }

  /** When exactly one rule fails, the list is that rule's entry alone. */
  lemma {:induction false} OnlyFailingRule(body: Body, rules: seq<Rule>, i: nat)
    requires i < |rules| && !Passes(body, rules[i])
    requires forall j :: 0 <= j < |rules| && j != i ==> Passes(body, rules[j])
    ensures Violations(body, rules) == [ErrorOf(rules[i])]
  {
    var n := |rules|;
    var front := rules[..n - 1];
    if i == n - 1 {
      NoViolationsIffAllPass(body, front);
    } else {
      OnlyFailingRule(body, front, i);
    }
  }

  /**
   * A body that passes every rule, short of one member, gets exactly the
   * entry of the rule on that member.
   */
  lemma OneMissingMember(body: Body, rules: seq<Rule>, i: nat)
    requires DistinctParams(rules) && i < |rules|
    requires Violations(body, rules) == []
    ensures Violations(body - {rules[i].param}, rules) == [ErrorOf(rules[i])]
  {
    var without := body - {rules[i].param};
    NoViolationsIffAllPass(body, rules);
    forall j | 0 <= j < |rules| && j != i ensures Passes(without, rules[j]) {
      assert Member(without, rules[j].param) == Member(body, rules[j].param);
    }
    OnlyFailingRule(without, rules, i);
  }

  /** Every member present, yet `array()` objects: the converse of NoErrorsImpliesAllPresent fails. */
  const BlankTitleHotel: Body := map[
    "title" := Str(""), "description" := Str("d"), "guestCount" := Num(1.0),
    "bedroomCount" := Num(1.0), "bathroomCount" := Num(1.0), "amenities" := Arr([]),
    "hostInfo" := Str("h"), "address" := Str("a"), "latitude" := Num(0.5),
    "longitude" := Num(0.5), "rooms" := Arr([])
  ]

  lemma PresenceIsNotValidity()
    ensures AllPresent(BlankTitleHotel)
    ensures Violations(BlankTitleHotel, Rules) == [FieldError("Title is required", "title")]
  {
    OnlyFailingRule(BlankTitleHotel, Rules, 0);
  }

  /** The list of a rule sequence is the list of its front followed by the list of its back. */
  lemma {:induction false} ViolationsSplit(body: Body, rules: seq<Rule>, k: nat)
    requires k <= |rules|
    ensures Violations(body, rules) == Violations(body, rules[..k]) + Violations(body, rules[k..])
  {
    if k < |rules| {
      var n := |rules|;
      var front := rules[..n - 1];
      ViolationsSplit(body, front, k);
      assert front[..k] == rules[..k];
      assert rules[k..][..|rules[k..]| - 1] == front[k..];
      assert rules[k..][|rules[k..]| - 1] == rules[n - 1];
    } else {
      assert rules[..k] == rules;
    }
  }

  /** When every rule fails, the list is every rule's entry. */
  lemma {:induction false} AllRulesFail(body: Body, rules: seq<Rule>)
    requires forall j :: 0 <= j < |rules| ==> !Passes(body, rules[j])
    ensures Violations(body, rules) == AllErrors(rules)
  {
    if rules != [] {
      var front := rules[..|rules| - 1];
      AllRulesFail(body, front);
      assert AllErrors(rules) == AllErrors(front) + [ErrorOf(rules[|rules| - 1])];
    }
  }

  /** The complete hotel document the create test sends. */
  const SampleHotel: Body := map[
    "title" := Str("Test Hotel"),
    "description" := Str("A beautiful hotel."),
    "guestCount" := Num(4.0),
    "bedroomCount" := Num(2.0),
    "bathroomCount" := Num(2.0),
    "amenities" := Arr([Str("WiFi"), Str("Pool")]),
    "hostInfo" := Str("Friendly host"),
    "address" := Str("123 Test St, Test City"),
    "latitude" := Num(12.34),
    "longitude" := Num(56.78),
    "rooms" := Arr([Obj(map[
      "hotelSlug" := Str("test-hotel"), "roomSlug" := Str("room-1"),
      "roomImage" := Str("room1.jpg"), "roomTitle" := Str("Luxury Suite"),
      "bedroomCount" := Num(1.0)])])
  ]

  lemma SampleHotelAccepted()
    ensures AllPresent(SampleHotel) && Violations(SampleHotel, Rules) == []
  {
    NoViolationsIffAllPass(SampleHotel, Rules);
  }

  /**
   * The count rules test only the type: a negative guest count passes them,
   * whatever their "valid positive number" message says.
   */
  lemma NegativeGuestCountAccepted(body: Body, n: real)
    requires Violations(body, Rules) == [] && n < 0.0
    ensures Violations(body["guestCount" := Num(n)], Rules) == []
  {
    var changed := body["guestCount" := Num(n)];
    NoViolationsIffAllPass(body, Rules);
    forall i | 0 <= i < |Rules| ensures Passes(changed, Rules[i]) {
      assert Passes(body, Rules[i]);
    }
    NoViolationsIffAllPass(changed, Rules);
  }

  /** The complete test document with a guest count of -3 still gets no entry. */
  lemma NegativeSampleAccepted()
    ensures Violations(SampleHotel["guestCount" := Num(-3.0)], Rules) == []
  {
    SampleHotelAccepted();
    NegativeGuestCountAccepted(SampleHotel, -3.0);
  }

  /** The document of the missing-fields test: title, description and guestCount only. */
  const PartialHotel: Body := map[
    "title" := Str("Test Hotel"), "description" := Str("A beautiful hotel."), "guestCount" := Num(4.0)
  ]

  /** The error list the missing-fields test expects. */
  const PartialHotelErrors: seq<FieldError> := [
    FieldError("Bedroom count must be a valid positive number", "bedroomCount"),
    FieldError("Bathroom count must be a valid positive number", "bathroomCount"),
    FieldError("Amenities must be an array", "amenities"),
    FieldError("Host info is required", "hostInfo"),
    FieldError("Address is required", "address"),
    FieldError("Latitude must be a valid decimal number", "latitude"),
    FieldError("Longitude must be a valid decimal number", "longitude"),
    FieldError("Rooms must be an array", "rooms")
  ]

  lemma PartialHotelFrontPasses()
    ensures Violations(PartialHotel, Rules[..3]) == []
  {
    var front := Rules[..3];
    assert Passes(PartialHotel, front[0]) && Passes(PartialHotel, front[1]) && Passes(PartialHotel, front[2]);
    NoViolationsIffAllPass(PartialHotel, front);
  }

  lemma PartialHotelBackFails()
    ensures Violations(PartialHotel, Rules[3..]) == PartialHotelErrors
  {
    var back := Rules[3..];
    assert PartialHotel.Keys == {"title", "description", "guestCount"};
    forall j | 0 <= j < |back| ensures !Passes(PartialHotel, back[j]) {
      AbsentMemberFails(PartialHotel, back[j]);
    }
    AllRulesFail(PartialHotel, back);
    assert AllErrors(back) == PartialHotelErrors;
  }

  lemma PartialHotelRejected()
    ensures !AllPresent(PartialHotel)
    ensures Violations(PartialHotel, Rules) == PartialHotelErrors
    ensures |Violations(PartialHotel, Rules)| == 8
  {
    ViolationsSplit(PartialHotel, Rules, 3);
    PartialHotelFrontPasses();
    PartialHotelBackFails();
    assert RequiredFields[3] !in PartialHotel;
  }
}
