/** The replies a request may get, as a language for each kind of request, and
    why a flat trace can be cut into replies in one way only. */
module Replies {
  import opened Text
  import opened Backend

  // ---------- The languages ----------

  /** Rows are announced first, each has a value for every announced column, and
      a completion closes them. */
  predicate RowSet(r: seq<Reply>) {
    && |r| >= 2 && r[0].RowDescription? && r[|r| - 1].CommandComplete?
    && forall i :: 1 <= i < |r| - 1 ==> r[i].DataRow? && |r[i].values| == |r[0].fields|
  }

  /** What running a query sends: an error, a bare completion, or rows. */
  predicate Outcome(r: seq<Reply>) {
    (|r| == 1 && (r[0].ErrorResponse? || r[0].CommandComplete?)) || RowSet(r)
  }

  predicate Closed(r: seq<Reply>) {
    && |r| >= 2 && r[|r| - 1].ReadyForQuery?
    && (r[..|r| - 1] == [EmptyQueryResponse] || Outcome(r[..|r| - 1]))
  }

  predicate Description(r: seq<Reply>) {
    || (|r| == 1 && (r[0].ErrorResponse? || r[0].NoData? || r[0].RowDescription?))
    || (|r| == 2 && r[0].ParameterDescription? && (r[1].NoData? || r[1].RowDescription?))
  }

  predicate Answers(kind: byte, r: seq<Reply>) {
    match kind
    case 'Q' => Closed(r)
    case 'P' => |r| == 1 && (r[0].ParseComplete? || r[0].ErrorResponse?)
    case 'B' => |r| == 1 && (r[0].BindComplete? || r[0].ErrorResponse?)
    case 'D' => Description(r)
    case 'E' => Outcome(r)
    case 'C' => r == [CloseComplete]
    case 'H' => r == []
    case 'X' => r == []
    case _ => |r| == 1 && r[0].ReadyForQuery?
  }

  // ---------- Prefix-freeness ----------

  /** The message that ends a reply of this kind, and stands nowhere else in it. */
  predicate IsLast(kind: byte, m: Reply) {
    match kind
    case 'Q' => m.ReadyForQuery?
    case 'E' => m.ErrorResponse? || m.CommandComplete?
    case 'D' => m.ErrorResponse? || m.NoData? || m.RowDescription?
    case _ => true
  }

  predicate IsSilent(kind: byte) {
    kind == 'H' || kind == 'X'
  }

  lemma LastEnds(kind: byte, r: seq<Reply>)
    requires Answers(kind, r)
    ensures r == [] <==> IsSilent(kind)
    ensures r != [] ==> IsLast(kind, r[|r| - 1])
    ensures forall i :: 0 <= i < |r| - 1 ==> !IsLast(kind, r[i])
  {
    if kind == 'Q' {
      var body := r[..|r| - 1];
      assert forall i :: 0 <= i < |body| ==> body[i] == r[i];
      if Outcome(body) && !RowSet(body) {
        assert |body| == 1;
      }
    }
  }

  /** No reply to a request of a kind is a proper prefix of another. */
  lemma PrefixFree(kind: byte, a: seq<Reply>, b: seq<Reply>, x: seq<Reply>, y: seq<Reply>)
    requires Answers(kind, a) && Answers(kind, b) && a + x == b + y
    ensures a == b && x == y
  {
    hide Answers, IsLast;
    LastEnds(kind, a);
    LastEnds(kind, b);
    if 0 < |a| && 0 < |b| {
      SameAt(a, b, x, y, |a| - 1);
      SameAt(a, b, x, y, |b| - 1);
    }
    assert a == (a + x)[..|a|] && b == (b + y)[..|b|];
    assert x == (a + x)[|a|..] && y == (b + y)[|b|..];
  }

  lemma SameAt(a: seq<Reply>, b: seq<Reply>, x: seq<Reply>, y: seq<Reply>, i: nat)
    requires a + x == b + y
    ensures i < |a| && i < |b| ==> a[i] == b[i]
  {
    assert i < |a| && i < |b| ==> (a + x)[i] == (b + y)[i];
  }

  // ---------- Splitting a trace ----------

  function Flatten(parts: seq<seq<Reply>>): seq<Reply> {
    if parts == [] then [] else parts[0] + Flatten(parts[1..])
  }

  ghost predicate SplitsInto(kinds: seq<byte>, parts: seq<seq<Reply>>) {
    |parts| == |kinds| && forall i :: 0 <= i < |parts| ==> Answers(kinds[i], parts[i])
  }

  /** The requests alone determine how a trace divides into replies. */
  lemma {:induction false} SplitIsUnique(kinds: seq<byte>, p: seq<seq<Reply>>, q: seq<seq<Reply>>)
    requires SplitsInto(kinds, p) && SplitsInto(kinds, q) && Flatten(p) == Flatten(q)
    ensures p == q
  {
    hide Answers;
    if kinds != [] {
      PrefixFree(kinds[0], p[0], q[0], Flatten(p[1..]), Flatten(q[1..]));
      SplitIsUnique(kinds[1..], p[1..], q[1..]);
      assert p == [p[0]] + p[1..] && q == [q[0]] + q[1..];
    }
  }

  // ---------- Counting ----------

  function Readies(r: seq<Reply>): nat {
    if r == [] then 0 else (if r[0].ReadyForQuery? then 1 else 0) + Readies(r[1..])
  }

  lemma {:induction false} ReadiesAppend(a: seq<Reply>, b: seq<Reply>)
    ensures Readies(a + b) == Readies(a) + Readies(b)
  {
    if a == [] {
      assert a + b == b;
    } else {
      assert (a + b)[1..] == a[1..] + b;
      ReadiesAppend(a[1..], b);
    }
  }

  lemma {:induction false} NoReadies(r: seq<Reply>)
    requires forall i :: 0 <= i < |r| ==> !r[i].ReadyForQuery?
    ensures Readies(r) == 0
  {
    if r != [] {
      NoReadies(r[1..]);
    }
  }

  /** Query, Sync and whatever is not recognised end in one ReadyForQuery. */
  predicate EndsReady(kind: byte) {
    kind !in {'P', 'B', 'D', 'E', 'C', 'H', 'X'}
  }

  lemma ReplyReadies(kind: byte, r: seq<Reply>)
    requires Answers(kind, r)
    ensures Readies(r) == if EndsReady(kind) then 1 else 0
  {
    if kind == 'Q' {
      LastEnds(kind, r);
      var body := r[..|r| - 1];
      assert r == body + [r[|r| - 1]];
      NoReadies(body);
      ReadiesAppend(body, [r[|r| - 1]]);
    } else if EndsReady(kind) {
    } else {
      NoReadies(r);
    }
  }

  function Turns(kinds: seq<byte>): nat {
    if kinds == [] then 0 else (if EndsReady(kinds[0]) then 1 else 0) + Turns(kinds[1..])
  }

  /** However the replies turn out, the requests fix how many ReadyForQuery
      messages they hold. */
  lemma {:induction false} ReadiesOfSplit(kinds: seq<byte>, parts: seq<seq<Reply>>)
    requires SplitsInto(kinds, parts)
    ensures Readies(Flatten(parts)) == Turns(kinds)
  {
    hide Answers, EndsReady;
    if kinds != [] {
      ReplyReadies(kinds[0], parts[0]);
      ReadiesAppend(parts[0], Flatten(parts[1..]));
      ReadiesOfSplit(kinds[1..], parts[1..]);
    }
  }
}
