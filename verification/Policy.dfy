/** Validation policies: what evidence meets one, what is missing, and the capped state that two
    selections share exactly when no further evidence can tell them apart. */
module Policy {
  import opened Bytes
  import opened Sorting
  import opened TextOrder
  import opened DecimalText

  datatype Option<+T> = None | Some(value: T)

  datatype Evidence = Evidence(
    capabilityId: Bytes, validatorId: Bytes, organization: Option<string>, validatorClass: Option<string>)

  datatype Policy = Policy(
    minimumValidators: int, classMinimums: seq<(string, int)>, requiredOrganizations: seq<string>)

  function Min(a: int, b: int): int { if a < b then a else b }

  function Count(s: seq<Evidence>, name: string): nat {
    if s == [] then 0
    else Count(s[..|s| - 1], name) + if s[|s| - 1].validatorClass == Some(name) then 1 else 0
  }

  predicate HasOrganization(s: seq<Evidence>, name: string) {
    exists i :: 0 <= i < |s| && s[i].organization == Some(name)
  }

  /** The policy's requirements, each read on its own. */
  predicate Satisfies(p: Policy, s: seq<Evidence>) {
    && |s| >= p.minimumValidators
    && (forall c :: c in p.classMinimums ==> Count(s, c.0) >= c.1)
    && (forall o :: o in p.requiredOrganizations ==> HasOrganization(s, o))
  }

  // ---- requirements in the order of their names

  predicate ClassBefore(a: (string, int), b: (string, int)) {
    TextBefore(a.0, b.0)
  }

  function OrderedClasses(p: Policy): seq<(string, int)> {
    Sort(p.classMinimums, ClassBefore)
  }

  function OrderedOrganizations(p: Policy): seq<string> {
    Sort(p.requiredOrganizations, TextBefore)
  }

  lemma OrderedSame(p: Policy)
    ensures forall c :: c in OrderedClasses(p) <==> c in p.classMinimums
    ensures forall o :: o in OrderedOrganizations(p) <==> o in p.requiredOrganizations
  {
    forall c ensures c in OrderedClasses(p) <==> c in p.classMinimums {
      SameElements(OrderedClasses(p), p.classMinimums, c);
    }
    forall o ensures o in OrderedOrganizations(p) <==> o in p.requiredOrganizations {
      SameElements(OrderedOrganizations(p), p.requiredOrganizations, o);
    }
  }

  // ---- what is missing

  datatype Lack = LackValidators(short: int) | LackClass(name: string, short: int) | LackOrganization(name: string)

  function LackingClasses(cs: seq<(string, int)>, s: seq<Evidence>): seq<Lack> {
    if cs == [] then []
    else
      var c := cs[|cs| - 1];
      LackingClasses(cs[..|cs| - 1], s) + if Count(s, c.0) < c.1 then [LackClass(c.0, c.1 - Count(s, c.0))] else []
  }

  function LackingOrganizations(os: seq<string>, s: seq<Evidence>): seq<Lack> {
    if os == [] then []
    else
      LackingOrganizations(os[..|os| - 1], s)
      + if HasOrganization(s, os[|os| - 1]) then [] else [LackOrganization(os[|os| - 1])]
  }

  function Missing(p: Policy, s: seq<Evidence>): seq<Lack> {
    (if |s| < p.minimumValidators then [LackValidators(p.minimumValidators - |s|)] else [])
    + LackingClasses(OrderedClasses(p), s) + LackingOrganizations(OrderedOrganizations(p), s)
  }

  method MissingClasses(classes: seq<(string, int)>, s: seq<Evidence>) returns (missing: seq<Lack>)
    ensures missing == LackingClasses(classes, s)
  {
    hide Count;
    missing := [];
    for i := 0 to |classes|
      invariant missing == LackingClasses(classes[..i], s)
    {
      var count := Count(s, classes[i].0);
      if count < classes[i].1 { missing := missing + [LackClass(classes[i].0, classes[i].1 - count)]; }
      assert classes[..i + 1][..i] == classes[..i];
    }
    assert classes[..|classes|] == classes;
  }

  method MissingOrganizations(organizations: seq<string>, s: seq<Evidence>) returns (missing: seq<Lack>)
    ensures missing == LackingOrganizations(organizations, s)
  {
    hide HasOrganization;
    missing := [];
    for i := 0 to |organizations|
      invariant missing == LackingOrganizations(organizations[..i], s)
    {
      if !HasOrganization(s, organizations[i]) { missing := missing + [LackOrganization(organizations[i])]; }
      assert organizations[..i + 1][..i] == organizations[..i];
    }
    assert organizations[..|organizations|] == organizations;
  }

  method MissingConstraints(p: Policy, s: seq<Evidence>) returns (missing: seq<Lack>)
    ensures missing == Missing(p, s)
  {
    missing := if |s| < p.minimumValidators then [LackValidators(p.minimumValidators - |s|)] else [];
    var classes := MissingClasses(OrderedClasses(p), s);
    var organizations := MissingOrganizations(OrderedOrganizations(p), s);
    missing := missing + classes + organizations;
  }

  lemma {:induction false} LackingClassesExact(cs: seq<(string, int)>, s: seq<Evidence>, x: Lack)
    ensures x in LackingClasses(cs, s) <==>
              x.LackClass? && x.short > 0 && (x.name, x.short + Count(s, x.name)) in cs
  {
    if cs != [] {
      LackingClassesExact(cs[..|cs| - 1], s, x);
      assert cs == cs[..|cs| - 1] + [cs[|cs| - 1]];
    }
  }

  lemma {:induction false} LackingOrganizationsExact(os: seq<string>, s: seq<Evidence>, x: Lack)
    ensures x in LackingOrganizations(os, s) <==> x.LackOrganization? && x.name in os && !HasOrganization(s, x.name)
  {
    if os != [] {
      LackingOrganizationsExact(os[..|os| - 1], s, x);
      assert os == os[..|os| - 1] + [os[|os| - 1]];
    }
  }

  /** A requirement of the policy, and by how much it is not met. */
  predicate IsShort(p: Policy, s: seq<Evidence>, x: Lack) {
    if x.LackValidators? then x.short > 0 && |s| + x.short == p.minimumValidators
    else if x.LackClass? then x.short > 0 && (x.name, x.short + Count(s, x.name)) in p.classMinimums
    else x.name in p.requiredOrganizations && !HasOrganization(s, x.name)
  }

  /** Every requirement that is not met is listed with how much is short, and nothing else is. */
  lemma MissingExact(p: Policy, s: seq<Evidence>, x: Lack)
    ensures x in Missing(p, s) <==> IsShort(p, s, x)
  {
    hide OrderedClasses, OrderedOrganizations, LackingClasses, LackingOrganizations, Count, HasOrganization;
    OrderedSame(p);
    LackingClassesExact(OrderedClasses(p), s, x);
    LackingOrganizationsExact(OrderedOrganizations(p), s, x);
  }

  lemma NamesTotal()
    ensures TotalPreorder(TextBefore) && TotalPreorder(ClassBefore)
  {
    forall a, b ensures TextBefore(a, b) || TextBefore(b, a) { TextTotal(a, b); }
    forall a, b, c | TextBefore(a, b) && TextBefore(b, c) ensures TextBefore(a, c) { TextChain(a, b, c); }
    forall x: (string, int), y: (string, int) ensures ClassBefore(x, y) || ClassBefore(y, x) { TextTotal(x.0, y.0); }
    forall x: (string, int), y: (string, int), z: (string, int) | ClassBefore(x, y) && ClassBefore(y, z)
      ensures ClassBefore(x, z)
    {
      TextChain(x.0, y.0, z.0);
    }
  }

  /** Validators before classes before organizations, and these by name. */
  predicate ListedBefore(x: Lack, y: Lack) {
    match x
    case LackValidators(_) => !y.LackValidators?
    case LackClass(name, _) => y.LackOrganization? || (y.LackClass? && TextBefore(name, y.name))
    case LackOrganization(name) => y.LackOrganization? && TextBefore(name, y.name)
  }

  ghost predicate Listed(missing: seq<Lack>) {
    forall i, j :: 0 <= i < j < |missing| ==> ListedBefore(missing[i], missing[j])
  }

  /** Shortfalls come in the order of their kinds and names, whatever order the policy has. */
  lemma MissingInOrder(p: Policy, s: seq<Evidence>)
    ensures Listed(Missing(p, s))
  {
    hide TextBefore, LackingClasses, LackingOrganizations, Sort;
    NamesTotal();
    SortSorts(p.classMinimums, ClassBefore);
    SortSorts(p.requiredOrganizations, TextBefore);
    var classes := LackingClasses(OrderedClasses(p), s);
    var organizations := LackingOrganizations(OrderedOrganizations(p), s);
    ClassesInOrder(OrderedClasses(p), s);
    OrganizationsInOrder(OrderedOrganizations(p), s);
    forall x ensures x in classes ==> x.LackClass? { LackingClassesExact(OrderedClasses(p), s, x); }
    forall x ensures x in organizations ==> x.LackOrganization? {
      LackingOrganizationsExact(OrderedOrganizations(p), s, x);
    }
    assert forall i :: 0 <= i < |classes| ==> classes[i] in classes;
    assert forall i :: 0 <= i < |organizations| ==> organizations[i] in organizations;
  }

  lemma {:induction false} ClassesInOrder(cs: seq<(string, int)>, s: seq<Evidence>)
    requires Sorted(cs, ClassBefore)
    ensures Listed(LackingClasses(cs, s))
  {
    hide TextBefore, Count;
    if cs != [] {
      var front, last := cs[..|cs| - 1], cs[|cs| - 1];
      ClassesInOrder(front, s);
      var before := LackingClasses(front, s);
      forall i | 0 <= i < |before| ensures before[i].LackClass? && TextBefore(before[i].name, last.0) {
        LackingClassesExact(front, s, before[i]);
        assert before[i] in before;
        var k :| 0 <= k < |front| && front[k].0 == before[i].name;
        assert ClassBefore(cs[k], cs[|cs| - 1]);
      }
    }
  }

  lemma {:induction false} OrganizationsInOrder(os: seq<string>, s: seq<Evidence>)
    requires Sorted(os, TextBefore)
    ensures Listed(LackingOrganizations(os, s))
  {
    hide TextBefore, HasOrganization;
    if os != [] {
      var front, last := os[..|os| - 1], os[|os| - 1];
      OrganizationsInOrder(front, s);
      var before := LackingOrganizations(front, s);
      forall i | 0 <= i < |before| ensures before[i].LackOrganization? && TextBefore(before[i].name, last) {
        LackingOrganizationsExact(front, s, before[i]);
        assert before[i] in before;
        var k :| 0 <= k < |front| && front[k] == before[i].name;
        assert TextBefore(os[k], os[|os| - 1]);
      }
    }
  }

  lemma NothingMissing(p: Policy, s: seq<Evidence>)
    ensures Missing(p, s) == [] <==> Satisfies(p, s)
  {
    hide Missing;
    forall x ensures x in Missing(p, s) ==> !Satisfies(p, s) { MissingExact(p, s, x); }
    if Missing(p, s) != [] { assert Missing(p, s)[0] in Missing(p, s); }
    if !Satisfies(p, s) {
      if |s| < p.minimumValidators {
        MissingExact(p, s, LackValidators(p.minimumValidators - |s|));
      } else if c :| c in p.classMinimums && Count(s, c.0) < c.1 {
        MissingExact(p, s, LackClass(c.0, c.1 - Count(s, c.0)));
      } else {
        var o :| o in p.requiredOrganizations && !HasOrganization(s, o);
        MissingExact(p, s, LackOrganization(o));
      }
    }
  }

  // ---- capped states

  /** Equal in every respect the policy can still notice. */
  ghost predicate SameState(p: Policy, a: seq<Evidence>, b: seq<Evidence>) {
    && Min(|a|, p.minimumValidators) == Min(|b|, p.minimumValidators)
    && (forall c :: c in p.classMinimums ==> Min(Count(a, c.0), c.1) == Min(Count(b, c.0), c.1))
    && (forall o :: o in p.requiredOrganizations ==> (HasOrganization(a, o) <==> HasOrganization(b, o)))
  }

  lemma SameStateSatisfies(p: Policy, a: seq<Evidence>, b: seq<Evidence>)
    requires SameState(p, a, b)
    ensures Satisfies(p, a) <==> Satisfies(p, b)
  {
    assert forall c :: c in p.classMinimums ==> (Count(a, c.0) >= c.1 <==> Count(b, c.0) >= c.1);
  }

  lemma SameStateExtends(p: Policy, a: seq<Evidence>, b: seq<Evidence>, x: Evidence)
    requires SameState(p, a, b)
    ensures SameState(p, a + [x], b + [x])
  {
    assert (a + [x])[..|a|] == a && (b + [x])[..|b|] == b;
    forall o | o in p.requiredOrganizations ensures HasOrganization(a + [x], o) <==> HasOrganization(b + [x], o) {
      OrganizationExtends(a, x, o);
      OrganizationExtends(b, x, o);
    }
  }

  lemma OrganizationExtends(s: seq<Evidence>, x: Evidence, o: string)
    ensures HasOrganization(s + [x], o) <==> HasOrganization(s, o) || x.organization == Some(o)
  {
    if HasOrganization(s, o) {
      var i :| 0 <= i < |s| && s[i].organization == Some(o);
      assert (s + [x])[i].organization == Some(o);
    }
    assert (s + [x])[|s|] == x;
  }

  function ClassText(c: (string, int), s: seq<Evidence>): string {
    c.0 + ":" + IntText(Min(Count(s, c.0), c.1))
  }

  function ClassesText(cs: seq<(string, int)>, s: seq<Evidence>): string {
    if cs == [] then ""
    else if |cs| == 1 then ClassText(cs[0], s)
    else ClassText(cs[0], s) + "," + ClassesText(cs[1..], s)
  }

  function OrganizationsText(os: seq<string>, s: seq<Evidence>): string {
    seq(|os|, i requires 0 <= i < |os| => if HasOrganization(s, os[i]) then '1' else '0')
  }

  /** The text the solver uses as the key of a state. */
  function StateKey(p: Policy, s: seq<Evidence>): string {
    IntText(Min(|s|, p.minimumValidators)) + "|" + ClassesText(OrderedClasses(p), s)
    + "|" + OrganizationsText(OrderedOrganizations(p), s)
  }

  lemma IntTextShape(n: int)
    ensures |IntText(n)| >= 1 && (IntText(n)[0] == '-' <==> n < 0)
    ensures forall i :: 1 <= i < |IntText(n)| ==> IsDigit(IntText(n)[i])
  {
    NatTextRoundTrip(if n < 0 then -n else n);
  }

  /** A number's text ends where the digits end. */
  lemma NumberEnds(n: int, m: int, u: string, v: string)
    requires IntText(n) + u == IntText(m) + v
    requires (u == "" || !IsDigit(u[0])) && (v == "" || !IsDigit(v[0]))
    ensures n == m && u == v
  {
    hide IntText;
    var a, b := IntText(n), IntText(m);
    IntTextShape(n);
    IntTextShape(m);
    NumberNotLonger(a, b, u, v);
    NumberNotLonger(b, a, v, u);
    assert a == (a + u)[..|a|] && b == (b + v)[..|b|];
    assert u == (a + u)[|a|..] && v == (b + v)[|b|..];
    IntTextInjective(n, m);
  }

  lemma NumberNotLonger(a: string, b: string, u: string, v: string)
    requires a + u == b + v && |a| >= 1 && |b| >= 1
    requires u == "" || !IsDigit(u[0])
    requires forall i :: 1 <= i < |b| ==> IsDigit(b[i])
    ensures |b| <= |a|
  {
    assert |a| + |u| == |a + u| == |b + v| == |b| + |v|;
    assert forall i :: |a| <= i < |a| + |u| ==> (a + u)[i] == u[i - |a|];
    assert forall i :: 1 <= i < |b| ==> IsDigit((a + u)[i]);
    assert u != "" ==> !IsDigit((a + u)[|a|]);
  }

  lemma IntTextInjective(n: int, m: int)
    requires IntText(n) == IntText(m)
    ensures n == m
  {
    IntTextShape(n);
    IntTextShape(m);
    NatTextRoundTrip(if n < 0 then -n else n);
    NatTextRoundTrip(if m < 0 then -m else m);
    if n < 0 { assert IntText(n)[1..] == NatText(-n) && IntText(m)[1..] == NatText(-m); }
  }

  /** What follows the first class's number. */
  function AfterFirst(cs: seq<(string, int)>, s: seq<Evidence>, u: string): (r: string)
    requires cs != []
    ensures r != "" && !IsDigit(r[0])
  {
    (if |cs| == 1 then "" else "," + ClassesText(cs[1..], s)) + "|" + u
  }

  lemma FirstClass(cs: seq<(string, int)>, s: seq<Evidence>, u: string)
    requires cs != []
    ensures ClassesText(cs, s) + "|" + u
         == (cs[0].0 + ":") + (IntText(Min(Count(s, cs[0].0), cs[0].1)) + AfterFirst(cs, s, u))
  {
    hide IntText, Count, Min;
    var name, number := cs[0].0 + ":", IntText(Min(Count(s, cs[0].0), cs[0].1));
    if |cs| == 1 {
      assert "" + "|" + u == "|" + u;
      assert name + number + "|" + u == name + (number + ("|" + u));
    } else {
      var more := "," + ClassesText(cs[1..], s);
      assert name + number + "," + ClassesText(cs[1..], s) + "|" + u == name + (number + (more + "|" + u));
    }
  }

  lemma AfterFirstRest(cs: seq<(string, int)>, s: seq<Evidence>, u: string)
    requires |cs| > 1
    ensures AfterFirst(cs, s, u)[1..] == ClassesText(cs[1..], s) + "|" + u
  {
    hide IntText, Count, ClassesText;
  }

  /** The class part can be read back although class names may hold any characters: both texts
      carry the same names in the same order. */
  lemma {:induction false} ClassesTextExact(cs: seq<(string, int)>, a: seq<Evidence>, b: seq<Evidence>, u: string,
      v: string)
    requires ClassesText(cs, a) + "|" + u == ClassesText(cs, b) + "|" + v
    ensures u == v
    ensures forall c :: c in cs ==> Min(Count(a, c.0), c.1) == Min(Count(b, c.0), c.1)
  {
    hide ClassesText, IntText, Count, Min;
    if cs == [] {
      assert ClassesText(cs, a) == "" == ClassesText(cs, b) by { NoClasses(a); NoClasses(b); }
      assert u == (ClassesText(cs, a) + "|" + u)[1..] && v == (ClassesText(cs, b) + "|" + v)[1..];
    } else {
      var c := cs[0];
      var n, m := Min(Count(a, c.0), c.1), Min(Count(b, c.0), c.1);
      FirstClass(cs, a, u);
      FirstClass(cs, b, v);
      DropPrefix(c.0 + ":", IntText(n) + AfterFirst(cs, a, u), IntText(m) + AfterFirst(cs, b, v));
      NumberEnds(n, m, AfterFirst(cs, a, u), AfterFirst(cs, b, v));
      if |cs| == 1 {
        assert u == AfterFirst(cs, a, u)[1..] && v == AfterFirst(cs, b, v)[1..];
      } else {
        AfterFirstRest(cs, a, u);
        AfterFirstRest(cs, b, v);
        ClassesTextExact(cs[1..], a, b, u, v);
        assert cs == [c] + cs[1..];
      }
    }
  }

  lemma NoClasses(s: seq<Evidence>)
    ensures ClassesText([], s) == ""
  {
  }

  lemma DropPrefix(p: string, u: string, v: string)
    requires p + u == p + v
    ensures u == v
  {
    assert u == (p + u)[|p|..] && v == (p + v)[|p|..];
  }

  lemma {:induction false} SameCountsSameText(cs: seq<(string, int)>, a: seq<Evidence>, b: seq<Evidence>)
    requires forall c :: c in cs ==> Min(Count(a, c.0), c.1) == Min(Count(b, c.0), c.1)
    ensures ClassesText(cs, a) == ClassesText(cs, b)
  {
    if cs != [] {
      assert cs[0] in cs;
      SameCountsSameText(cs[1..], a, b);
    }
  }

  /** Two selections share a key exactly when they are in the same capped state. */
  lemma StateKeyExact(p: Policy, a: seq<Evidence>, b: seq<Evidence>)
    ensures StateKey(p, a) == StateKey(p, b) <==> SameState(p, a, b)
  {
    hide OrderedClasses, OrderedOrganizations, IntText, ClassesText, Count, HasOrganization;
    OrderedSame(p);
    if SameState(p, a, b) { SameCountsSameText(OrderedClasses(p), a, b); }
    if StateKey(p, a) == StateKey(p, b) { SameKeySameState(p, a, b); }
  }

  lemma SameKeySameState(p: Policy, a: seq<Evidence>, b: seq<Evidence>)
    requires StateKey(p, a) == StateKey(p, b)
    ensures SameState(p, a, b)
  {
    hide OrderedClasses, OrderedOrganizations, IntText, ClassesText, Count, HasOrganization;
    OrderedSame(p);
    var os := OrderedOrganizations(p);
    var oa, ob := OrganizationsText(os, a), OrganizationsText(os, b);
    var ca, cb := ClassesText(OrderedClasses(p), a), ClassesText(OrderedClasses(p), b);
    var n, m := Min(|a|, p.minimumValidators), Min(|b|, p.minimumValidators);
    assert StateKey(p, a) == IntText(n) + ("|" + ca + "|" + oa);
    assert StateKey(p, b) == IntText(m) + ("|" + cb + "|" + ob);
    NumberEnds(n, m, "|" + ca + "|" + oa, "|" + cb + "|" + ob);
    assert "|" + ca + "|" + oa == "|" + (ca + "|" + oa) && "|" + cb + "|" + ob == "|" + (cb + "|" + ob);
    DropPrefix("|", ca + "|" + oa, cb + "|" + ob);
    ClassesTextExact(OrderedClasses(p), a, b, oa, ob);
    forall o | o in os ensures HasOrganization(a, o) <==> HasOrganization(b, o) {
      var i :| 0 <= i < |os| && os[i] == o;
      assert oa[i] == ob[i];
    }
  }
}
