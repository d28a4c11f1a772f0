/**
 * Reference semantics of the bounded-depth trie of src/TrieIndex.kt,
 * stated over the set of values added so far rather than over nodes.
 *
 * A word w is filed under its padded path: the child-slot offsets of its
 * first depth + 1 characters, where a position past the end of w gets the
 * padding offset AlphabetSize (25), the same slot as 'z'.
 */
module TrieSpec {
  import opened Wrappers
  import opened TextUtils
  import opened SetUtils

  /** A branch has AlphabetSize + 1 = 26 child slots. */
  const Slots: int := AlphabetSize + 1

  /** String.offsetAt: the slot chosen by position i of w. None stands for
      the failed range check on a character outside 'a'..'z'. */
  function OffsetAt(w: string, i: nat): (r: Option<int>)
    ensures r.Some? ==> 0 <= r.value < Slots
    ensures r.None? <==> i < |w| && !IsLetter(w[i])
  {
    if i >= |w| then Some(AlphabetSize)
    else if IsLetter(w[i]) then Some(w[i] as int - AlphabetFirst as int)
    else None
  }

  /** Past the end of a word the offset is the one of 'z'. */
  lemma PaddingIsZSlot(w: string, i: nat)
    requires i >= |w|
    ensures OffsetAt(w, i) == OffsetAt([AlphabetLast], 0)
  {
  }

  /** The offsets of positions 0..d of w: the path from the root to the
      leaf that w is filed under at depth d. */
  function PaddedPath(w: string, d: nat): (p: seq<int>)
    ensures |p| == d + 1
    ensures forall i :: 0 <= i <= d && OffsetAt(w, i).Some? ==> p[i] == OffsetAt(w, i).value
  {
    seq(d + 1, i requires 0 <= i <= d =>
      if i < |w| then w[i] as int - AlphabetFirst as int else AlphabetSize)
  }

  /** The bucket at q, empty when there is none. */
  function Bucket(m: map<seq<int>, set<string>>, q: seq<int>): set<string> {
    if q in m then m[q] else {}
  }

  /** The buckets after v is added to the bucket at q. */
  function Put(m: map<seq<int>, set<string>>, q: seq<int>, v: string): (m': map<seq<int>, set<string>>)
    ensures m'.Keys == m.Keys + {q}
    ensures m'[q] == Bucket(m, q) + {v}
    ensures forall q' :: q' in m && q' != q ==> m'[q'] == m[q']
  {
    m[q := Bucket(m, q) + {v}]
  }

  /** Some word of v is filed under q. */
  ghost predicate IndexedUnder(v: string, q: seq<int>, d: nat) {
    exists x :: x in Words(v) && PaddedPath(x, d) == q
  }

  ghost function LeafPaths(A: set<string>, d: nat): set<seq<int>> {
    set v, x | v in A && x in Words(v) :: PaddedPath(x, d)
  }

  /** The buckets a trie of depth d holds once the values of A are added:
      every word of every value files the value under its padded path. */
  ghost function Expected(A: set<string>, d: nat): (m: map<seq<int>, set<string>>)
    ensures forall q :: q in m ==> |q| == d + 1 && m[q] != {} && m[q] <= A
    ensures forall v, x :: v in A && x in Words(v) ==> PaddedPath(x, d) in m && v in m[PaddedPath(x, d)]
  {
    LeafPathsFiled(A, d);
    map q | q in LeafPaths(A, d) :: Filed(A, q, d)
  }

  /** The values of A with a word filed under q. */
  ghost function Filed(A: set<string>, q: seq<int>, d: nat): (s: set<string>)
    ensures forall v :: v in s <==> v in A && IndexedUnder(v, q, d)
  {
    set v | v in A && IndexedUnder(v, q, d)
  }

  lemma LeafPathsFiled(A: set<string>, d: nat)
    ensures forall q :: q in LeafPaths(A, d) ==> |q| == d + 1 && Filed(A, q, d) != {}
  {
    forall q | q in LeafPaths(A, d) ensures |q| == d + 1 && Filed(A, q, d) != {} {
      var v, x :| v in A && x in Words(v) && q == PaddedPath(x, d);
      assert v in Filed(A, q, d);
    }
  }

  /** The bucket at q holds exactly the values of A with a word filed under q. */
  lemma ExpectedAt(A: set<string>, d: nat, q: seq<int>)
    ensures q in Expected(A, d) <==> exists u :: u in A && IndexedUnder(u, q, d)
    ensures Bucket(Expected(A, d), q) == Filed(A, q, d)
  {
    if u :| u in A && IndexedUnder(u, q, d) {
      var x :| x in Words(u) && PaddedPath(x, d) == q;
      assert q in LeafPaths(A, d);
    }
  }

  /** The buckets after putWordMatch has filed v under each word of ws in turn. */
  ghost function Inserted(m: map<seq<int>, set<string>>, v: string, ws: seq<string>, d: nat): map<seq<int>, set<string>>
    decreases |ws|
  {
    if ws == [] then m
    else Put(Inserted(m, v, ws[..|ws| - 1], d), PaddedPath(ws[|ws| - 1], d), v)
  }

  /** Union of the buckets whose path extends p: what TrieElem.values()
      returns for the node at p. */
  ghost function Below(m: map<seq<int>, set<string>>, p: seq<int>): set<string> {
    set q, v | q in m && p <= q && v in m[q] :: v
  }

  /** getWordMatches for a query word w, over the added values A: a word
      no longer than d matches the values with a word whose padded path
      starts with the offsets of w; a longer word reaches one leaf, whose
      values are kept when they contain w. */
  ghost function Matches(A: set<string>, d: nat, w: string): (r: set<string>)
    ensures r <= A
    ensures |w| > d ==> forall v :: v in r ==> SubstringMatch(w, v)
  {
    if |w| <= d then
      set v | v in A && exists x :: x in Words(v) && PaddedPath(w, d)[..|w|] <= PaddedPath(x, d)
    else
      set v | v in A && IndexedUnder(v, PaddedPath(w, d), d) && SubstringMatch(w, v)
  }

  ghost function MatchesAll(A: set<string>, d: nat, ws: seq<string>): (r: seq<set<string>>)
    ensures |r| == |ws|
  {
    seq(|ws|, i requires 0 <= i < |ws| => Matches(A, d, ws[i]))
  }

  /** search: the values matching every word of the query. */
  ghost function SearchSpec(A: set<string>, d: nat, query: string): set<string> {
    IntersectAll(MatchesAll(A, d, Words(query)))
  }

  // ---------------------------------------------------------------------
  // Filing values: putWordMatch over the words of a value.
  // ---------------------------------------------------------------------

  /** Which buckets Inserted creates or grows. */
  lemma {:induction false} InsertedAt(m: map<seq<int>, set<string>>, v: string, ws: seq<string>, d: nat, q: seq<int>)
    ensures q in Inserted(m, v, ws, d) <==> q in m || exists x :: x in ws && PaddedPath(x, d) == q
    ensures Bucket(Inserted(m, v, ws, d), q) ==
            Bucket(m, q) + (if exists x :: x in ws && PaddedPath(x, d) == q then {v} else {})
    decreases |ws|
  {
    if ws != [] {
      var init, last := ws[..|ws| - 1], ws[|ws| - 1];
      InsertedAt(m, v, init, d, q);
      assert forall x :: x in ws <==> x in init || x == last by {
        assert ws == init + [last];
      }
    }
  }

  /** Filing v under each of its words takes the buckets of A to the
      buckets of A + {v}; when v was already added nothing changes. */
  lemma AddValue(A: set<string>, v: string, d: nat)
    ensures Inserted(Expected(A, d), v, Words(v), d) == Expected(A + {v}, d)
  {
    var m, m' := Inserted(Expected(A, d), v, Words(v), d), Expected(A + {v}, d);
    forall q ensures (q in m <==> q in m') && Bucket(m, q) == Bucket(m', q) {
      AddValueAt(A, v, d, q);
    }
    SameBuckets(m, m');
  }

  /** Two indexes with the same keys and the same buckets are equal. */
  lemma SameBuckets(m: map<seq<int>, set<string>>, m': map<seq<int>, set<string>>)
    requires forall q :: (q in m <==> q in m') && Bucket(m, q) == Bucket(m', q)
    ensures m == m'
  {
    forall q | q in m ensures m[q] == m'[q] {
      assert Bucket(m, q) == Bucket(m', q);
    }
  }

  lemma AddValueAt(A: set<string>, v: string, d: nat, q: seq<int>)
    ensures q in Inserted(Expected(A, d), v, Words(v), d) <==> q in Expected(A + {v}, d)
    ensures Bucket(Inserted(Expected(A, d), v, Words(v), d), q) == Bucket(Expected(A + {v}, d), q)
  {
    var m := Inserted(Expected(A, d), v, Words(v), d);
    InsertedAt(Expected(A, d), v, Words(v), d, q);
    assert (exists x :: x in Words(v) && PaddedPath(x, d) == q) <==> IndexedUnder(v, q, d);
    ExpectedAt(A, d, q);
    ExpectedAt(A + {v}, d, q);
    assert q in m <==> q in Expected(A, d) || IndexedUnder(v, q, d);
    assert (exists u :: u in A + {v} && IndexedUnder(u, q, d)) <==>
           (exists u :: u in A && IndexedUnder(u, q, d)) || IndexedUnder(v, q, d);
    FiledAdd(A, v, q, d);
  }

  // ---------------------------------------------------------------------
  // Looking values up.
  // ---------------------------------------------------------------------

  lemma FiledAdd(A: set<string>, v: string, q: seq<int>, d: nat)
    ensures Filed(A + {v}, q, d) == Filed(A, q, d) + (if IndexedUnder(v, q, d) then {v} else {})
  {
    var lhs, rhs := Filed(A + {v}, q, d), Filed(A, q, d) + (if IndexedUnder(v, q, d) then {v} else {});
    forall u ensures u in lhs <==> u in rhs {
      if u == v {
      } else {
      }
    }
  }

  /** The values below the node at p are the added values with a word
      whose padded path passes through p. */
  lemma BelowExpected(A: set<string>, d: nat, p: seq<int>)
    ensures Below(Expected(A, d), p) == set v | v in A && exists x :: x in Words(v) && p <= PaddedPath(x, d)
  {
    var m := Expected(A, d);
    forall v | v in A && exists x :: x in Words(v) && p <= PaddedPath(x, d)
      ensures v in Below(m, p)
    {
      var x :| x in Words(v) && p <= PaddedPath(x, d);
      assert v in m[PaddedPath(x, d)];
    }
    forall v | v in Below(m, p)
      ensures v in A && exists x :: x in Words(v) && p <= PaddedPath(x, d)
    {
      var q :| q in m && p <= q && v in m[q];
      assert IndexedUnder(v, q, d);
    }
  }

  /** w begins x, or x begins w and the rest of w is all 'z'. */
  ghost predicate PrefixUpToZ(w: string, x: string) {
    w <= x || (x <= w && forall i :: |x| <= i < |w| ==> w[i] == AlphabetLast)
  }

  /** AS WRITTEN: a query word agrees with the padded path of a word x
      exactly when it is a prefix of x, or x is a prefix of it and the rest
      of the query is all 'z' (the padding slot is the slot of 'z'). */
  lemma PaddedAgreement(w: string, x: string, d: nat)
    requires IsWord(w) && IsWord(x) && |w| <= d
    ensures PaddedPath(w, d)[..|w|] <= PaddedPath(x, d) <==> PrefixUpToZ(w, x)
  {
    var pw, px := PaddedPath(w, d), PaddedPath(x, d);
    assert forall i :: 0 <= i < |w| ==> pw[i] == w[i] as int - AlphabetFirst as int by {
      forall i | 0 <= i < |w| ensures pw[i] == w[i] as int - AlphabetFirst as int {
        assert OffsetAt(w, i).Some?;
      }
    }
    assert forall i :: 0 <= i <= d ==> px[i] == if i < |x| then x[i] as int - AlphabetFirst as int else AlphabetSize by {
      forall i | 0 <= i <= d ensures px[i] == if i < |x| then x[i] as int - AlphabetFirst as int else AlphabetSize {
        assert OffsetAt(x, i).Some?;
      }
    }
    if pw[..|w|] <= px {
      if |w| <= |x| {
        forall i | 0 <= i < |w| ensures w[i] == x[i] {
          assert pw[..|w|][i] == px[i];
        }
        assert w == x[..|w|];
      } else {
        forall i | 0 <= i < |x| ensures w[i] == x[i] {
          assert pw[..|w|][i] == px[i];
        }
        assert x == w[..|x|];
        forall i | |x| <= i < |w| ensures w[i] == AlphabetLast {
          assert pw[..|w|][i] == px[i];
        }
      }
    }
    if w <= x {
      assert forall i :: 0 <= i < |w| ==> w[i] == x[i];
      assert pw[..|w|] == px[..|w|];
    } else if x <= w && forall i :: |x| <= i < |w| ==> w[i] == AlphabetLast {
      assert forall i :: 0 <= i < |x| ==> w[i] == x[i];
      assert pw[..|w|] == px[..|w|];
    }
  }

  /** A query word of at most d letters matches the values with a word
      that it begins, together with (as written) the values with a word
      that begins it when the remaining query letters are all 'z'. */
  lemma ShortWordMatches(A: set<string>, d: nat, w: string)
    requires IsWord(w) && |w| <= d
    ensures Matches(A, d, w) == set v | v in A && exists x :: x in Words(v) && PrefixUpToZ(w, x)
  {
    forall v, x | v in A && x in Words(v)
      ensures PaddedPath(w, d)[..|w|] <= PaddedPath(x, d) <==> PrefixUpToZ(w, x)
    {
      PaddedAgreement(w, x, d);
    }
  }

  /** Depth boundary: a value that is one word longer than d is found by
      its first d letters and by itself, and not by a d-letter query that
      differs from it in some position. */
  lemma DepthBoundary(x: string, d: nat, w: string)
    requires d > 0 && IsWord(x) && |x| > d
    requires IsWord(w) && |w| == d && !(w <= x)
    ensures SearchSpec({x}, d, x[..d]) == {x}
    ensures SearchSpec({x}, d, x) == {x}
    ensures SearchSpec({x}, d, w) == {}
  {
    WordOfWord(x);
    assert x in Words(x);
    WordOfWord(x[..d]);
    ShortWordMatches({x}, d, x[..d]);
    assert x[..d] <= x;
    assert MatchesAll({x}, d, Words(x[..d])) == [Matches({x}, d, x[..d])];
    assert IndexedUnder(x, PaddedPath(x, d), d);
    assert OccursAt(x, x, 0);
    assert MatchesAll({x}, d, Words(x)) == [Matches({x}, d, x)];
    WordOfWord(w);
    ShortWordMatches({x}, d, w);
    assert MatchesAll({x}, d, Words(w)) == [Matches({x}, d, w)];
  }

  /** A query word longer than d that begins a word of an added value
      finds that value: the two share the padded path, and the value
      contains the query where it contains its word. */
  lemma LongPrefixFound(A: set<string>, d: nat, w: string, v: string, x: string)
    requires |w| > d && v in A && x in Words(v) && w <= x
    ensures v in Matches(A, d, w)
  {
    assert PaddedPath(w, d) == PaddedPath(x, d);
    assert IndexedUnder(v, PaddedPath(w, d), d);
    WordOccurs(v, x);
    var i :| OccursAt(x, v, i);
    assert v[i..i + |w|] == x[..|w|];
    assert OccursAt(w, v, i);
  }

  /** AS WRITTEN: with depth at least 2, a one-letter value c is returned
      for the query c + "z", although c neither contains nor starts with it. */
  lemma PaddingCollision(c: char, d: nat)
    requires IsLetter(c) && d >= 2
    ensures SearchSpec({[c]}, d, [c, AlphabetLast]) == {[c]}
    ensures !SubstringMatch([c, AlphabetLast], [c]) && !([c, AlphabetLast] <= [c])
  {
    var w := [c, AlphabetLast];
    WordOfWord([c]);
    WordOfWord(w);
    ShortWordMatches({[c]}, d, w);
    assert [c] in Words([c]) && [c] <= w;
    assert MatchesAll({[c]}, d, Words(w)) == [Matches({[c]}, d, w)];
  }

  /** CORRECTED: with 27 slots and a terminator offset of its own (26),
      a query word agrees with the path of x exactly when it begins x. */
  function FixedPath(w: string, d: nat): (p: seq<int>)
    requires IsWord(w)
    ensures |p| == d + 1
    ensures forall i :: 0 <= i <= d ==> 0 <= p[i] <= Slots
  {
    seq(d + 1, i requires 0 <= i <= d =>
      if i < |w| then w[i] as int - AlphabetFirst as int else Slots)
  }

  lemma FixedAgreement(w: string, x: string, d: nat)
    requires IsWord(w) && IsWord(x) && |w| <= d
    ensures FixedPath(w, d)[..|w|] <= FixedPath(x, d) <==> w <= x
  {
    var pw, px := FixedPath(w, d), FixedPath(x, d);
    assert forall i :: 0 <= i <= d ==> px[i] == if i < |x| then x[i] as int - AlphabetFirst as int else Slots;
    assert forall i :: 0 <= i < |w| ==> pw[i] == w[i] as int - AlphabetFirst as int;
    if pw[..|w|] <= px {
      if |w| > 0 {
        assert pw[..|w|][|w| - 1] == px[|w| - 1];
      }
      assert |w| <= |x|;
      forall i | 0 <= i < |w| ensures w[i] == x[i] {
        assert pw[..|w|][i] == px[i];
      }
      assert w == x[..|w|];
    }
    if w <= x {
      assert pw[..|w|] == px[..|w|];
    }
  }

  // ---------------------------------------------------------------------
  // Reading buckets back: the facts the walks down the trie rely on.
  // ---------------------------------------------------------------------

  /** The values below p whose bucket path continues p with an offset of
      at least i: what the child slots i, i + 1, ... of the node at p hold. */
  ghost function BelowFrom(m: map<seq<int>, set<string>>, p: seq<int>, i: int): set<string> {
    set q, v | q in m && p < q && i <= q[|p|] && v in m[q] :: v
  }

  /** When every bucket path is longer than p and starts its next step at
      offset 0 or more, slot 0 onwards covers everything below p. */
  lemma BelowFromStart(m: map<seq<int>, set<string>>, p: seq<int>)
    requires forall q :: q in m ==> |p| < |q| && 0 <= q[|p|]
    ensures Below(m, p) == BelowFrom(m, p, 0)
  {
  }

  /** No path continues past the last slot. */
  lemma BelowFromEnd(m: map<seq<int>, set<string>>, p: seq<int>)
    requires forall q :: q in m && |p| < |q| ==> q[|p|] < Slots
    ensures BelowFrom(m, p, Slots) == {}
  {
  }

  /** Slot i, then the slots after it. */
  lemma BelowFromStep(m: map<seq<int>, set<string>>, p: seq<int>, i: int)
    ensures BelowFrom(m, p, i) == Below(m, p + [i]) + BelowFrom(m, p, i + 1)
  {
    forall q | q in m && p < q ensures (i <= q[|p|] <==> p + [i] <= q || i + 1 <= q[|p|]) {
      if q[|p|] == i {
        assert q[..|p| + 1] == p + [i];
      }
    }
  }

  /** With all bucket paths of one length, below a full path is its bucket. */
  lemma BelowLeaf(m: map<seq<int>, set<string>>, q: seq<int>)
    requires forall k :: k in m ==> |k| == |q|
    ensures Below(m, q) == Bucket(m, q)
  {
    forall v | v in Below(m, q) ensures v in Bucket(m, q) {
      var k :| k in m && q <= k && v in m[k];
      assert k == q;
    }
  }

  /** A longer path has fewer values below it. */
  lemma BelowShrink(m: map<seq<int>, set<string>>, p1: seq<int>, p2: seq<int>)
    requires p1 <= p2
    ensures Below(m, p2) <= Below(m, p1)
  {
  }

  /** A word no longer than d matches what lies below the node its
      letters lead to. */
  lemma ShortMatchesBelow(A: set<string>, d: nat, w: string)
    requires |w| <= d
    ensures Matches(A, d, w) == Below(Expected(A, d), PaddedPath(w, d)[..|w|])
  {
    BelowExpected(A, d, PaddedPath(w, d)[..|w|]);
  }

  /** A longer word matches the values in its leaf that contain it. */
  lemma LongMatchesLeaf(A: set<string>, d: nat, w: string)
    requires |w| > d
    ensures Matches(A, d, w) == set v | v in Bucket(Expected(A, d), PaddedPath(w, d)) && SubstringMatch(w, v)
  {
    ExpectedAt(A, d, PaddedPath(w, d));
  }

  /** The values of a bucket that contain w: the filter of getWordMatches
      with the substring match. */
  function Containing(bucket: set<string>, w: string): set<string>
  {
    set v | v in bucket && SubstringMatch(w, v)
  }

  /** The values a leaf yields for a longer word: those of its bucket
      that contain the word, which are exactly the word's matches. */
  lemma LeafAnswer(A: set<string>, d: nat, w: string, bucket: set<string>)
    requires |w| > d && bucket == Bucket(Expected(A, d), PaddedPath(w, d))
    ensures Containing(bucket, w) == Matches(A, d, w)
  {
    LongMatchesLeaf(A, d, w);
  }

  /** A word whose walk stops at an empty slot matches nothing. */
  lemma MissingAnswer(A: set<string>, d: nat, w: string, k: nat)
    requires k <= |w| && k <= d + 1 && Below(Expected(A, d), PaddedPath(w, d)[..k]) == {}
    ensures Matches(A, d, w) == {}
  {
    MatchesWithin(A, d, w, k);
  }

  /** Whatever w matches lies below every node on the path of w. */
  lemma MatchesWithin(A: set<string>, d: nat, w: string, k: nat)
    requires k <= |w| && k <= d + 1
    ensures Matches(A, d, w) <= Below(Expected(A, d), PaddedPath(w, d)[..k])
  {
    var m, q := Expected(A, d), PaddedPath(w, d);
    if |w| <= d {
      ShortMatchesBelow(A, d, w);
      BelowShrink(m, q[..k], q[..|w|]);
    } else {
      LongMatchesLeaf(A, d, w);
      forall v | v in Matches(A, d, w) ensures v in Below(m, q[..k]) {
        assert q in m && q[..k] <= q && v in m[q];
      }
    }
  }

  // ---------------------------------------------------------------------
  // Properties of search.
  // ---------------------------------------------------------------------

  /** A query with no letter yields no result. */
  lemma SearchEmptyQuery(A: set<string>, d: nat, query: string)
    requires NoLetters(query)
    ensures SearchSpec(A, d, query) == {}
  {
    NoWordsIffNoLetters(query);
  }

  /** Search returns only added values. */
  lemma SearchWithinAdded(A: set<string>, d: nat, query: string)
    ensures SearchSpec(A, d, query) <= A
  {
    var ms := MatchesAll(A, d, Words(query));
    if ms != [] {
      assert ms[0] == Matches(A, d, Words(query)[0]);
    }
  }

  /** Adding values never shrinks a search result. */
  lemma SearchMonotone(A: set<string>, B: set<string>, d: nat, query: string)
    requires A <= B
    ensures SearchSpec(A, d, query) <= SearchSpec(B, d, query)
  {
    var ws := Words(query);
    forall i | 0 <= i < |ws|
      ensures MatchesAll(A, d, ws)[i] <= MatchesAll(B, d, ws)[i]
    {
      assert MatchesAll(A, d, ws)[i] == Matches(A, d, ws[i]);
      assert MatchesAll(B, d, ws)[i] == Matches(B, d, ws[i]);
    }
    IntersectAllMonotone(MatchesAll(A, d, ws), MatchesAll(B, d, ws));
  }

  /** Two queries joined by a separator find what both of them find. */
  lemma SearchConjunction(A: set<string>, d: nat, q1: string, c: char, q2: string)
    requires !IsLetter(c) && !NoLetters(q1) && !NoLetters(q2)
    ensures SearchSpec(A, d, q1 + [c] + q2) == SearchSpec(A, d, q1) * SearchSpec(A, d, q2)
  {
    NoWordsIffNoLetters(q1);
    NoWordsIffNoLetters(q2);
    WordsAroundSeparator(q1, c, q2);
    var w1, w2 := Words(q1), Words(q2);
    assert MatchesAll(A, d, w1 + w2) == MatchesAll(A, d, w1) + MatchesAll(A, d, w2);
    IntersectAllAppend(MatchesAll(A, d, w1), MatchesAll(A, d, w2));
  }
}
