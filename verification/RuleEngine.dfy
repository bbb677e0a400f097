/** The rule registry as a Go slice, its operations, and first-match lookup
    while other clients change it. */
module RuleEngine {
  import opened Text
  import opened Rules
  import opened Matcher

  class RuleObject {
    const condition: Condition
    const rule: Rule
    var hits: nat

    constructor (condition: Condition, rule: Rule)
      ensures this.condition == condition && this.rule == rule && hits == 0
    {
      this.condition, this.rule, this.hits := condition, rule, 0;
    }

    method IncrementHits()
      modifies this
      ensures hits == old(hits) + 1
    {
      hits := hits + 1;
    }
  }

  type Regex = (Text, Text) -> bool

  // ---------- The registry as a list ----------

  datatype Op = Add(r: RuleObject) | Prepend(r: RuleObject) | Delete(id: Text) | Clear

  function IndexOfId(rules: seq<RuleObject>, id: Text): (i: nat)
    ensures i <= |rules|
    ensures i < |rules| ==> rules[i].rule.id == id
    ensures forall j :: 0 <= j < i ==> rules[j].rule.id != id
  {
    if rules == [] || rules[0].rule.id == id then 0
    else
      var k := IndexOfId(rules[1..], id);
      assert forall j :: 1 <= j < k + 1 ==> rules[j] == rules[1..][j - 1];
      k + 1
  }

  function Without(rules: seq<RuleObject>, i: nat): seq<RuleObject>
    requires i < |rules|
  {
    rules[..i] + rules[i + 1..]
  }

  function ApplyOp(rules: seq<RuleObject>, op: Op): seq<RuleObject> {
    match op
    case Add(r) => rules + [r]
    case Prepend(r) => [r] + rules
    case Delete(id) => var i := IndexOfId(rules, id); if i == |rules| then rules else Without(rules, i)
    case Clear => []
  }

  function ApplyOps(rules: seq<RuleObject>, ops: seq<Op>): seq<RuleObject> {
    if ops == [] then rules else ApplyOp(ApplyOps(rules, ops[..|ops| - 1]), ops[|ops| - 1])
  }

  predicate NoDelete(ops: seq<Op>) {
    forall i :: 0 <= i < |ops| ==> !ops[i].Delete?
  }

  /** The first rule that accepts the query, or the length when none does. */
  function FirstMatch(rules: seq<RuleObject>, query: Text, params: Params, regex: Regex): (i: nat)
    ensures i <= |rules|
    ensures i < |rules| ==> Matches(rules[i].condition, query, params, regex)
    ensures forall j :: 0 <= j < i ==> !Matches(rules[j].condition, query, params, regex)
  {
    if rules == [] || Matches(rules[0].condition, query, params, regex) then 0
    else
      var k := FirstMatch(rules[1..], query, params, regex);
      assert forall j :: 1 <= j < k + 1 ==> rules[j] == rules[1..][j - 1];
      k + 1
  }

  /** The rule found, or null. */
  function Found(rules: seq<RuleObject>, query: Text, params: Params, regex: Regex): (r: RuleObject?)
    ensures r != null ==> r in rules && Matches(r.condition, query, params, regex)
  {
    var i := FirstMatch(rules, query, params, regex);
    if i < |rules| then rules[i] else null
  }

  /** A call without parameters is accepted only by rules that ask for none, and
      those accept the call with any parameters too. So the call finds the rule
      that the call with parameters finds, exactly when that rule asks for none;
      otherwise it finds a later one. */
  lemma SameRuleIff(rules: seq<RuleObject>, query: Text, params: Params, regex: Regex)
    ensures var i, j := FirstMatch(rules, query, [], regex), FirstMatch(rules, query, params, regex);
            j <= i && (j == i <==> j == |rules| || rules[j].condition.params == [])
  {
    hide FirstMatch, TextMatches;
    var i, j := FirstMatch(rules, query, [], regex), FirstMatch(rules, query, params, regex);
    assert forall k :: 0 <= k < |rules| && rules[k].condition.params == [] ==>
             (Matches(rules[k].condition, query, [], regex) <==> Matches(rules[k].condition, query, params, regex));
    assert forall k :: 0 <= k < |rules| && rules[k].condition.params != [] ==> !Matches(rules[k].condition, query, [], regex);
  }

  // ---------- The registry as a slice ----------

  /** What a slice header reads: the first n elements of a backing array. */
  ghost predicate Denotes(a: array<RuleObject?>, n: nat, rules: seq<RuleObject>)
    reads a
  {
    n <= a.Length && |rules| == n && forall i :: 0 <= i < n ==> a[i] == rules[i]
  }

  method ShiftDown(a: array<RuleObject?>, i: nat, n: nat)
    requires i < n <= a.Length
    modifies a
    ensures forall j :: 0 <= j < a.Length ==> a[j] == if i <= j < n - 1 then old(a[j + 1]) else old(a[j])
  {
    for k := i + 1 to n
      invariant forall j :: 0 <= j < a.Length ==> a[j] == if i <= j < k - 1 then old(a[j + 1]) else old(a[j])
    {
      a[k - 1] := a[k];
    }
  }

  /** What somebody sees who took a slice header earlier: the registry's list,
      the elements under the header, how long the header's array is, and whether
      the registry still writes to that array. */
  datatype Seen = Seen(rules: seq<RuleObject>, view: seq<RuleObject>, capacity: nat, live: bool)

  /** The header just taken. */
  function Taken(rules: seq<RuleObject>, capacity: nat): Seen {
    Seen(rules, rules, capacity, true)
  }

  /** An element added in place may land under a header that is longer than the
      slice has become; a deletion moves elements under it. */
  function OnHeader(s: Seen, op: Op): (r: Seen)
    ensures |r.view| == |s.view| && r.rules == ApplyOp(s.rules, op)
  {
    match op
    case Add(r) =>
      var n := |s.rules|;
      var inPlace := s.live && n < s.capacity;
      s.(rules := s.rules + [r], live := inPlace, view := if inPlace && n < |s.view| then s.view[n := r] else s.view)
    case Prepend(r) => s.(rules := [r] + s.rules, live := false)
    case Delete(id) => s.(rules := ApplyOp(s.rules, op), view := if s.live then Shifted(s.view, s.rules, id) else s.view)
    case Clear => s.(rules := [], live := false)
  }

  /** What a header reads of the shared array after the deletion: elements behind
      the rule have moved one place down, the last one stays behind. */
  function Shifted(view: seq<RuleObject>, rules: seq<RuleObject>, id: Text): (r: seq<RuleObject>)
    ensures |r| == |view|
  {
    var i := IndexOfId(rules, id);
    seq(|view|, j requires 0 <= j < |view| => if i <= j < |rules| - 1 then rules[j + 1] else view[j])
  }

  function OnHeaderAll(s: Seen, ops: seq<Op>): (r: Seen)
    ensures |r.view| == |s.view| && r.rules == ApplyOps(s.rules, ops)
  {
    if ops == [] then s else OnHeader(OnHeaderAll(s, ops[..|ops| - 1]), ops[|ops| - 1])
  }

  /** Without a deletion the header keeps its elements, if it reads no further
      than the slice at the start. */
  lemma {:induction false} NoDeletionNoChange(s: Seen, ops: seq<Op>)
    requires NoDelete(ops) && (s.live ==> |s.view| <= |s.rules|)
    ensures var r := OnHeaderAll(s, ops); r.view == s.view && (r.live ==> |r.view| <= |r.rules|)
  {
    if ops != [] {
      NoDeletionNoChange(s, ops[..|ops| - 1]);
    }
  }

  class Registry {
    /** Backing array (its length is the capacity) and length of the slice. */
    var backing: array<RuleObject?>
    var count: nat
    ghost var rules: seq<RuleObject>

    ghost predicate Valid()
      reads this, backing
    {
      Denotes(backing, count, rules)
    }

    constructor ()
      ensures Valid() && rules == [] && fresh(backing)
    {
      backing := new RuleObject?[0];
      count := 0;
      rules := [];
    }

    /** A bigger backing array with the same elements; by how much it grows is
        the run-time's choice. */
    method Grown(first: seq<RuleObject>, capacity: nat) returns (a: array<RuleObject?>)
      requires Valid() && |first| + count <= capacity
      ensures fresh(a) && a.Length == capacity && Denotes(a, |first| + count, first + rules)
    {
      a := new RuleObject?[capacity](_ => null);
      for i := 0 to |first|
        invariant forall j :: 0 <= j < i ==> a[j] == first[j]
      {
        a[i] := first[i];
      }
      for i := 0 to count
        invariant Valid() && forall j :: 0 <= j < |first| ==> a[j] == first[j]
        invariant forall j :: 0 <= j < i ==> a[|first| + j] == rules[j]
      {
        a[|first| + i] := backing[i];
      }
    }

    /** append(rules, r): in place when there is room behind the slice. */
    method AddRule(r: RuleObject, spare: nat)
      requires Valid()
      modifies this, backing
      ensures Valid() && rules == old(rules) + [r]
      ensures if old(count) < old(backing.Length) then backing == old(backing) else fresh(backing)
      ensures forall i :: 0 <= i < old(backing).Length ==> old(backing)[i] == if i == old(count) then r else old(backing[i])
    {
      if count == backing.Length {
        backing := Grown([], count + 1 + spare);
      }
      backing[count] := r;
      count := count + 1;
      rules := rules + [r];
    }

    method PrependRule(r: RuleObject, spare: nat)
      requires Valid()
      modifies this
      ensures Valid() && rules == [r] + old(rules) && fresh(backing)
    {
      backing := Grown([r], count + 1 + spare);
      count := count + 1;
      rules := [r] + rules;
    }

    /** append(rules[:i], rules[i+1:]...): the elements behind the first match
        move one place down in the same array; the last one stays behind. */
    method DeleteRule(id: Text) returns (found: bool)
      requires Valid()
      modifies this, backing
      ensures Valid() && backing == old(backing)
      ensures found <==> IndexOfId(old(rules), id) < |old(rules)|
      ensures rules == ApplyOp(old(rules), Delete(id))
      ensures Denotes(backing, old(count), Shifted(old(rules), old(rules), id))
      ensures forall i :: old(count) <= i < backing.Length ==> backing[i] == old(backing[i])
    {
      hide IndexOfId;
      var i := Position(id);
      found := i < count;
      if found {
        ShiftDown(backing, i, count);
        count := count - 1;
        rules := Without(rules, i);
      }
    }

    method Position(id: Text) returns (i: nat)
      requires Valid()
      ensures i == IndexOfId(rules, id)
    {
      i := 0;
      while i < count && backing[i].rule.id != id
        invariant i <= count
        invariant forall j :: 0 <= j < i ==> rules[j].rule.id != id
        decreases count - i
      {
        i := i + 1;
      }
      FoundAt(rules, id, i);
    }

    method ClearRules()
      requires Valid()
      modifies this
      ensures Valid() && rules == [] && fresh(backing)
    {
      backing := new RuleObject?[0];
      count := 0;
      rules := [];
    }

    method GetRules() returns (copied: array<RuleObject?>)
      requires Valid()
      ensures fresh(copied) && Denotes(copied, copied.Length, rules)
    {
      copied := Grown([], count);
      assert [] + rules == rules;
    }

    /** What a header into this array reads while the registry moves on. */
    ghost predicate Reads(header: array<RuleObject?>, s: Seen)
      reads this, header
    {
      && rules == s.rules && (s.live <==> header == backing)
      && header.Length == s.capacity && Denotes(header, |s.view|, s.view)
    }

    method Apply(op: Op, spare: nat, ghost header: array<RuleObject?>, ghost s: Seen)
      requires Valid() && Reads(header, s)
      modifies this, backing
      ensures Valid() && rules == ApplyOp(old(rules), op)
      ensures backing == old(backing) || fresh(backing)
      ensures Reads(header, OnHeader(s, op))
    {
      hide IndexOfId;
      match op
      case Add(r) => AddRule(r, spare);
      case Prepend(r) => PrependRule(r, spare);
      case Delete(id) => var found := DeleteRule(id);
      case Clear => ClearRules();
    }

    /** Any run of operations denotes what the list operations give, however the
        arrays grow. A slice header taken before it never reads a nil; what it
        reads is what the operations make of it, and that is the same list as
        before when no deletion is among them. */
    method RunOps(ops: seq<Op>, spares: nat -> nat, ghost header: array<RuleObject?>, ghost s: Seen)
      requires Valid() && Reads(header, s)
      modifies this, backing
      ensures Valid() && rules == ApplyOps(old(rules), ops)
      ensures backing == old(backing) || fresh(backing)
      ensures Reads(header, OnHeaderAll(s, ops))
      ensures NoDelete(ops) && (s.live ==> |s.view| <= |s.rules|) ==> Denotes(header, |s.view|, s.view)
    {
      for i := 0 to |ops|
        invariant Valid() && rules == ApplyOps(old(rules), ops[..i])
        invariant backing == old(backing) || fresh(backing)
        invariant Reads(header, OnHeaderAll(s, ops[..i]))
      {
        assert ops[..i + 1][..i] == ops[..i];
        Apply(ops[i], spares(i), header, OnHeaderAll(s, ops[..i]));
      }
      assert ops[..|ops|] == ops;
      if NoDelete(ops) && (s.live ==> |s.view| <= |s.rules|) {
        NoDeletionNoChange(s, ops);
      }
    }

    /** The search of Match: the header is read once, then the elements one by
        one while other clients change the registry in between. The answer is
        the first match of what the looks come upon; unless somebody deletes,
        that is the list as it was. */
    method Search(query: Text, params: Params, regex: Regex, between: nat -> seq<Op>, spares: (nat, nat) -> nat)
      returns (r: RuleObject?, ghost looked: nat)
      requires Valid()
      modifies this, backing
      ensures Valid() && (backing == old(backing) || fresh(backing))
      ensures looked <= |old(rules)| && (r == null ==> looked == |old(rules)|)
      ensures rules == SeenBefore(Taken(old(rules), old(backing.Length)), between, looked).rules
      ensures r != null ==> Matches(r.condition, query, params, regex)
      ensures r == Found(Looks(Taken(old(rules), old(backing.Length)), between, |old(rules)|), query, params, regex)
      ensures (forall i :: NoDelete(between(i))) ==> r == Found(old(rules), query, params, regex)
    {
      hide Matches, IndexOfId, OnHeaderAll, FirstMatch, SeenAt, NoDelete, Found;
      var header, n := backing, count;
      ghost var s := Taken(rules, backing.Length);
      ghost var looks := Looks(s, between, n);
      if forall i :: NoDelete(between(i)) {
        NoDeletionSameLooks(rules, backing.Length, between);
      }
      for i := 0 to n
        invariant Valid() && (backing == old(backing) || fresh(backing))
        invariant Reads(header, SeenBefore(s, between, i))
        invariant forall j :: 0 <= j < i ==> !Matches(looks[j].condition, query, params, regex)
      {
        NextLook(s, between, i);
        RunOps(between(i), k => spares(i, k), header, SeenBefore(s, between, i));
        r := header[i];
        assert r == looks[i];
        if Matches(r.condition, query, params, regex) {
          FoundThere(looks, query, params, regex, i);
          looked := i + 1;
          return;
        }
      }
      r := null;
      looked := n;
      NoneFound(looks, query, params, regex);
    }
  }

  // ---------- What a search comes upon ----------

  /** What the header reads at look i, all that happened before it done. */
  function SeenAt(s: Seen, between: nat -> seq<Op>, i: nat): (r: Seen)
    ensures |r.view| == |s.view|
    decreases i, 1
  {
    OnHeaderAll(SeenBefore(s, between, i), between(i))
  }

  function SeenBefore(s: Seen, between: nat -> seq<Op>, i: nat): (r: Seen)
    ensures |r.view| == |s.view|
    decreases i, 0
  {
    if i == 0 then s else SeenAt(s, between, i - 1)
  }

  lemma NextLook(s: Seen, between: nat -> seq<Op>, i: nat)
    ensures SeenBefore(s, between, i + 1) == SeenAt(s, between, i) == OnHeaderAll(SeenBefore(s, between, i), between(i))
  {
  }

  lemma FoundThere(rules: seq<RuleObject>, query: Text, params: Params, regex: Regex, i: nat)
    requires i < |rules| && Matches(rules[i].condition, query, params, regex)
    requires forall j :: 0 <= j < i ==> !Matches(rules[j].condition, query, params, regex)
    ensures Found(rules, query, params, regex) == rules[i]
  {
    hide Matches;
    MatchAt(rules, query, params, regex, i);
  }

  lemma NoneFound(rules: seq<RuleObject>, query: Text, params: Params, regex: Regex)
    requires forall j :: 0 <= j < |rules| ==> !Matches(rules[j].condition, query, params, regex)
    ensures Found(rules, query, params, regex) == null
  {
    hide Matches;
  }

  function Looks(s: Seen, between: nat -> seq<Op>, n: nat): (r: seq<RuleObject>)
    requires n == |s.view|
    ensures |r| == n
  {
    seq(n, i requires 0 <= i < n => SeenAt(s, between, i).view[i])
  }

  lemma NoDeletionSameLooks(rules: seq<RuleObject>, capacity: nat, between: nat -> seq<Op>)
    requires forall i :: NoDelete(between(i))
    ensures Looks(Taken(rules, capacity), between, |rules|) == rules
  {
    hide SeenAt;
    forall i: nat | i < |rules|
      ensures SeenAt(Taken(rules, capacity), between, i).view == rules
    {
      NoDeletionSeen(rules, capacity, between, i);
    }
  }

  lemma {:induction false} NoDeletionSeen(rules: seq<RuleObject>, capacity: nat, between: nat -> seq<Op>, i: nat)
    requires forall i :: NoDelete(between(i))
    ensures var r := SeenAt(Taken(rules, capacity), between, i); r.view == rules && (r.live ==> |rules| <= |r.rules|)
  {
    hide OnHeaderAll;
    if i > 0 {
      NoDeletionSeen(rules, capacity, between, i - 1);
    }
    NoDeletionNoChange(SeenBefore(Taken(rules, capacity), between, i), between(i));
  }

  lemma FoundAt(rules: seq<RuleObject>, id: Text, i: nat)
    requires i <= |rules|
    requires forall j :: 0 <= j < i ==> rules[j].rule.id != id
    requires i < |rules| ==> rules[i].rule.id == id
    ensures IndexOfId(rules, id) == i
  {
  }

  lemma MatchAt(rules: seq<RuleObject>, query: Text, params: Params, regex: Regex, i: nat)
    requires i < |rules|
    ensures Matches(rules[i].condition, query, params, regex)
            && (forall j :: 0 <= j < i ==> !Matches(rules[j].condition, query, params, regex))
            ==> FirstMatch(rules, query, params, regex) == i
  {
  }

  // ---------- What a deletion does to a header taken before it ----------

  /** A header taken before a deletion keeps its meaning exactly when nothing
      different moved down: the rule was absent or only copies of it followed. */
  lemma DeleteKeepsHeaderIff(rules: seq<RuleObject>, id: Text)
    ensures Shifted(rules, rules, id) == rules <==>
            var i := IndexOfId(rules, id); forall j :: i <= j < |rules| ==> rules[j] == rules[i]
  {
    hide IndexOfId;
    var i := IndexOfId(rules, id);
    if i < |rules| {
      assert Shifted(rules, rules, id) == Without(rules, i) + [rules[|rules| - 1]];
      ShiftedIff(rules, i);
    } else {
      assert Shifted(rules, rules, id) == rules;
    }
  }

  lemma ShiftedIff(rules: seq<RuleObject>, i: nat)
    requires i < |rules|
    ensures Without(rules, i) + [rules[|rules| - 1]] == rules <==> forall j :: i <= j < |rules| ==> rules[j] == rules[i]
  {
    var l := Without(rules, i) + [rules[|rules| - 1]];
    assert forall j :: 0 <= j < |rules| - 1 ==> l[j] == if j < i then rules[j] else rules[j + 1];
    if forall j :: i <= j < |rules| ==> rules[j] == rules[i] {
      assert l == rules;
    } else if l == rules {
      SameFrom(rules, i);
    }
  }

  lemma {:induction false} SameFrom(rules: seq<RuleObject>, i: nat)
    requires i < |rules| && forall j :: i <= j < |rules| - 1 ==> rules[j + 1] == rules[j]
    ensures forall j :: i <= j < |rules| ==> rules[j] == rules[i]
    decreases |rules| - i
  {
    if i + 1 < |rules| {
      SameFrom(rules, i + 1);
      assert rules[i + 1] == rules[i];
    }
  }

  // ---------- One deletion during a search ----------

  /** Between the looks nothing happens but one deletion, before look k. */
  ghost predicate OneDeletion(between: nat -> seq<Op>, k: nat, id: Text) {
    forall i: nat :: between(i) == if i == k then [Delete(id)] else []
  }

  lemma {:induction false} SeenAroundDeletion(rules: seq<RuleObject>, capacity: nat, between: nat -> seq<Op>, k: nat, id: Text, i: nat)
    requires OneDeletion(between, k, id)
    ensures var s := Taken(rules, capacity); SeenAt(s, between, i) == if i < k then s else OnHeader(s, Delete(id))
  {
    hide OnHeader;
    var s := SeenBefore(Taken(rules, capacity), between, i);
    if i > 0 {
      SeenAroundDeletion(rules, capacity, between, k, id, i - 1);
    }
    assert [Delete(id)][..0] == [];
    assert OnHeaderAll(s, []) == s && OnHeaderAll(s, [Delete(id)]) == OnHeader(s, Delete(id));
  }

  /** The place in the old list that no look comes upon: the deleted rule's, or
      that of the next look if the deletion is behind it already. */
  function Skipped(rules: seq<RuleObject>, id: Text, k: nat): nat {
    var p := IndexOfId(rules, id);
    if p < k then k else p
  }

  /** Nothing is skipped when no rule has the id, or in the last place. */
  predicate Skips(rules: seq<RuleObject>, id: Text, k: nat) {
    IndexOfId(rules, id) < |rules| && Skipped(rules, id, k) + 1 < |rules|
  }

  lemma WithoutLength(rules: seq<RuleObject>, id: Text, k: nat)
    ensures Skips(rules, id, k) ==> Skipped(rules, id, k) < |rules| && |Without(rules, Skipped(rules, id, k))| == |rules| - 1
  {
  }

  /** What look i comes upon, with the deletion behind it or still to come. */
  lemma LookAround(rules: seq<RuleObject>, id: Text, k: nat, i: nat)
    requires k < |rules| && i < |rules|
    ensures (if i < k then rules[i] else Shifted(rules, rules, id)[i]) ==
            if Skips(rules, id, k) then (Without(rules, Skipped(rules, id, k)) + [rules[|rules| - 1]])[i] else rules[i]
  {
    hide IndexOfId;
  }

  lemma LooksAroundDeletion(rules: seq<RuleObject>, capacity: nat, between: nat -> seq<Op>, k: nat, id: Text)
    requires OneDeletion(between, k, id) && k < |rules|
    ensures Looks(Taken(rules, capacity), between, |rules|) ==
            if Skips(rules, id, k) then Without(rules, Skipped(rules, id, k)) + [rules[|rules| - 1]] else rules
  {
    hide IndexOfId, SeenAt, OneDeletion, Skips, Skipped;
    var looks := Looks(Taken(rules, capacity), between, |rules|);
    WithoutLength(rules, id, k);
    forall i: nat | i < |rules|
      ensures looks[i] ==
              if Skips(rules, id, k) then (Without(rules, Skipped(rules, id, k)) + [rules[|rules| - 1]])[i] else rules[i]
    {
      SeenAroundDeletion(rules, capacity, between, k, id, i);
      LookAround(rules, id, k, i);
    }
  }

  /** A search with one deletion before its look k answers as if the rule in the
      skipped place were not there. Its answer is that of the old list exactly
      when that rule was not its first match, or a copy of it is next. */
  lemma DeletionSkips(rules: seq<RuleObject>, capacity: nat, between: nat -> seq<Op>, k: nat, id: Text,
                      query: Text, params: Params, regex: Regex)
    requires OneDeletion(between, k, id) && k < |rules|
    ensures var r := Found(Looks(Taken(rules, capacity), between, |rules|), query, params, regex);
            var m := Skipped(rules, id, k);
            if Skips(rules, id, k) then
              && r == Found(Without(rules, m), query, params, regex)
              && (r == Found(rules, query, params, regex) <==>
                  FirstMatch(rules, query, params, regex) != m || CopyIsNext(rules, m, query, params, regex))
            else r == Found(rules, query, params, regex)
  {
    hide IndexOfId, Matches, Found, FirstMatch, Looks, Without, CopyIsNext, OneDeletion;
    LooksAroundDeletion(rules, capacity, between, k, id);
    if Skips(rules, id, k) {
      var m := Skipped(rules, id, k);
      LastOfWithout(rules, m);
      LastTwice(Without(rules, m), query, params, regex);
      SkipIff(rules, m, query, params, regex);
    }
  }

  /** The next match behind place m is the rule in place m once more. */
  ghost predicate CopyIsNext(rules: seq<RuleObject>, m: nat, query: Text, params: Params, regex: Regex)
    requires m < |rules|
  {
    exists j :: m < j < |rules| && rules[j] == rules[m] &&
                forall i :: m < i < j ==> !Matches(rules[i].condition, query, params, regex)
  }

  lemma LastOfWithout(rules: seq<RuleObject>, m: nat)
    requires m + 1 < |rules|
    ensures var rest := Without(rules, m); rest != [] && rest[|rest| - 1] == rules[|rules| - 1]
  {
  }

  lemma LastTwice(rules: seq<RuleObject>, query: Text, params: Params, regex: Regex)
    requires rules != []
    ensures Found(rules + [rules[|rules| - 1]], query, params, regex) == Found(rules, query, params, regex)
  {
    hide Matches, FirstMatch;
    var twice := rules + [rules[|rules| - 1]];
    var f := FirstMatch(rules, query, params, regex);
    if f < |rules| {
      FoundThere(twice, query, params, regex, f);
    } else {
      assert !Matches(rules[|rules| - 1].condition, query, params, regex);
      NoneFound(twice, query, params, regex);
    }
  }

  lemma SkipIff(rules: seq<RuleObject>, m: nat, query: Text, params: Params, regex: Regex)
    requires m < |rules|
    ensures Found(Without(rules, m), query, params, regex) == Found(rules, query, params, regex) <==>
            FirstMatch(rules, query, params, regex) != m || CopyIsNext(rules, m, query, params, regex)
  {
    hide Matches, Found, FirstMatch, CopyIsNext, Without;
    if FirstMatch(rules, query, params, regex) == m {
      SkippedFirst(rules, m, query, params, regex);
      FoundIs(rules, query, params, regex);
    } else {
      SkippedOther(rules, m, query, params, regex);
    }
  }

  lemma FoundIs(rules: seq<RuleObject>, query: Text, params: Params, regex: Regex)
    ensures var i := FirstMatch(rules, query, params, regex);
            i < |rules| ==> Found(rules, query, params, regex) == rules[i]
  {
    hide FirstMatch, Matches;
  }

  lemma SkippedOther(rules: seq<RuleObject>, m: nat, query: Text, params: Params, regex: Regex)
    requires m < |rules| && FirstMatch(rules, query, params, regex) != m
    ensures Found(Without(rules, m), query, params, regex) == Found(rules, query, params, regex)
  {
    hide Matches, FirstMatch;
    var rest := Without(rules, m);
    var f := FirstMatch(rules, query, params, regex);
    if f < |rules| {
      var g := if f < m then f else f - 1;
      forall j | 0 <= j < g
        ensures !Matches(rest[j].condition, query, params, regex)
      {
        assert rest[j] == rules[if j < m then j else j + 1];
      }
      FoundThere(rest, query, params, regex, g);
    } else {
      forall j | 0 <= j < |rest|
        ensures !Matches(rest[j].condition, query, params, regex)
      {
        assert rest[j] == rules[if j < m then j else j + 1];
      }
      NoneFound(rest, query, params, regex);
    }
  }

  lemma SkippedFirst(rules: seq<RuleObject>, m: nat, query: Text, params: Params, regex: Regex)
    requires m < |rules| && FirstMatch(rules, query, params, regex) == m
    ensures Found(Without(rules, m), query, params, regex) == rules[m] <==> CopyIsNext(rules, m, query, params, regex)
  {
    hide Matches, FirstMatch;
    var rest := Without(rules, m);
    var g := FirstMatch(rest, query, params, regex);
    assert forall i :: m < i < |rules| ==> rules[i] == rest[i - 1];
    assert forall i :: 0 <= i < m ==> rules[i] == rest[i];
    if j :| m < j < |rules| && rules[j] == rules[m] && forall i :: m < i < j ==> !Matches(rules[i].condition, query, params, regex) {
      assert rest[j - 1] == rules[j];
    }
    if g < |rest| && rest[g] == rules[m] {
      assert rules[g + 1] == rules[m];
      forall i | m < i < g + 1
        ensures !Matches(rules[i].condition, query, params, regex)
      {
        assert rules[i] == rest[i - 1];
      }
    }
  }

  /** A search can find nothing although one rule accepts the call from beginning
      to end: it is the only one that does, it is the next to be looked at, it is
      not the last, and a rule that stands before it is deleted. */
  lemma SearchMissesMatch(rules: seq<RuleObject>, capacity: nat, between: nat -> seq<Op>, k: nat, id: Text,
                          query: Text, params: Params, regex: Regex)
    requires OneDeletion(between, k, id) && IndexOfId(rules, id) < k < |rules| - 1
    requires forall j :: 0 <= j < |rules| ==> (Matches(rules[j].condition, query, params, regex) <==> j == k)
    ensures Found(rules, query, params, regex) == rules[k]
    ensures Found(Looks(Taken(rules, capacity), between, |rules|), query, params, regex) == null
    ensures forall i: nat :: rules[k] in SeenBefore(Taken(rules, capacity), between, i).rules
  {
    hide IndexOfId, Matches, Found, FirstMatch, Looks, SeenBefore, OneDeletion;
    FoundThere(rules, query, params, regex, k);
    DeletionSkips(rules, capacity, between, k, id, query, params, regex);
    var rest := Without(rules, k);
    forall j | 0 <= j < |rest|
      ensures !Matches(rest[j].condition, query, params, regex)
    {
      assert rest[j] == rules[if j < k then j else j + 1];
    }
    NoneFound(rest, query, params, regex);
    forall i: nat
      ensures rules[k] in SeenBefore(Taken(rules, capacity), between, i).rules
    {
      StaysInRegistry(rules, capacity, between, k, id, i);
    }
  }

  lemma StaysInRegistry(rules: seq<RuleObject>, capacity: nat, between: nat -> seq<Op>, k: nat, id: Text, i: nat)
    requires OneDeletion(between, k, id) && IndexOfId(rules, id) < k < |rules|
    ensures rules[k] in SeenBefore(Taken(rules, capacity), between, i).rules
  {
    hide IndexOfId, SeenAt;
    var p := IndexOfId(rules, id);
    if i > 0 {
      NextLook(Taken(rules, capacity), between, i - 1);
      SeenAroundDeletion(rules, capacity, between, k, id, i - 1);
      assert Without(rules, p)[k - 1] == rules[k];
    }
  }

  predicate AnyMatch(pattern: Text, query: Text) {
    true
  }

  /** A call without parameters is accepted exactly when none is expected. */
  lemma PatternAccepts(c: Condition, expected: seq<Text>)
    requires c == Condition([], ['x'], expected)
    ensures Matches(c, [], [], AnyMatch) <==> expected == []
  {
    hide TextMatches;
  }

  /** Such rules: a and c ask for a parameter, b for none, and a is deleted before
      the second look. */
  lemma ThreeRules(a: RuleObject, b: RuleObject, c: RuleObject, capacity: nat, between: nat -> seq<Op>)
    requires a.condition == c.condition == Condition([], ['x'], [['x']]) && b.condition == Condition([], ['x'], [])
    requires OneDeletion(between, 1, a.rule.id)
    ensures Found([a, b, c], [], [], AnyMatch) == b
    ensures Found(Looks(Taken([a, b, c], capacity), between, 3), [], [], AnyMatch) == null
    ensures forall i: nat :: b in SeenBefore(Taken([a, b, c], capacity), between, i).rules
  {
    hide Matches, Found, Looks, SeenBefore, OneDeletion;
    PatternAccepts(a.condition, [['x']]);
    PatternAccepts(b.condition, []);
    SearchMissesMatch([a, b, c], capacity, between, 1, a.rule.id, [], [], AnyMatch);
  }
}
