/** The endless-mode leaderboard update of `handleEndlessRanking`: find the
    player's entry by name, raise it only to a higher best (refreshing its
    date) or append a new entry, sort by score descending with a stable sort,
    and keep the first ten. */
module Leaderboard {
  import opened Wrappers

  /** Entries kept after an update. */
  const Capacity: int := 10

  datatype Entry = Entry(name: string, score: int, date: string)

  type Board = seq<Entry>

  predicate SortedDesc(b: Board) {
    forall i, j :: 0 <= i < j < |b| ==> b[i].score >= b[j].score
  }

  predicate UniqueNames(b: Board) {
    forall i, j :: 0 <= i < j < |b| ==> b[i].name != b[j].name
  }

  predicate Has(b: Board, name: string) {
    exists i :: 0 <= i < |b| && b[i].name == name
  }

  /** What every update produces from a board that was already one. */
  predicate Valid(b: Board) {
    |b| <= Capacity && SortedDesc(b) && UniqueNames(b)
  }

  /** `findIndex` by name: the first entry with that name, or -1 when there
      is none. */
  function FindIndex(b: Board, name: string): (r: int)
    ensures -1 <= r < |b|
    ensures r >= 0 <==> Has(b, name)
    ensures r >= 0 ==> b[r].name == name
    ensures forall j :: 0 <= j < |b| && (r < 0 || j < r) ==> b[j].name != name
  {
    if |b| == 0 then -1
    else if b[0].name == name then 0
    else
      var k := FindIndex(b[1..], name);
      assert forall j :: 1 <= j < |b| ==> b[j] == b[1..][j - 1];
      if k < 0 then -1 else k + 1
  }

  /** The entry `findIndex` would find. */
  function Lookup(b: Board, name: string): Option<Entry> {
    var i := FindIndex(b, name);
    if i < 0 then None else Some(b[i])
  }

  /** The entry a submission of `best` leaves for `name`: the old one if its
      score is already at least `best`, otherwise one with `best` and today's
      date. */
  function Raised(prev: Option<Entry>, name: string, best: int, date: string): Entry {
    if prev.Some? && prev.value.score >= best then prev.value else Entry(name, best, date)
  }

  /** The find-and-update-or-append step: with an entry for `name` the
      board keeps its length, otherwise the new entry is appended
      (UpsertSpec says what happens to the found entry). */
  function Upsert(b: Board, name: string, best: int, date: string): (r: Board)
    ensures Has(b, name) ==> |r| == |b|
    ensures !Has(b, name) ==> r == b + [Entry(name, best, date)]
  {
    var i := FindIndex(b, name);
    if i >= 0 then
      if b[i].score < best then b[i := b[i].(score := best, date := date)] else b
    else
      b + [Entry(name, best, date)]
  }

  /** The found entry is raised to the best, with the new date, only when
      its score is lower; with no entry the new one is what a lookup finds;
      every other position is untouched. */
  lemma UpsertSpec(b: Board, name: string, best: int, date: string)
    ensures var r := Upsert(b, name, best, date);
            && (forall j :: 0 <= j < |b| && j != FindIndex(b, name) ==> r[j] == b[j])
            && Lookup(r, name) == Some(Raised(Lookup(b, name), name, best, date))
  {
    var r := Upsert(b, name, best, date);
    var i := FindIndex(b, name);
    if i >= 0 {
      assert r[i].name == name;
    } else {
      assert r[|b|].name == name;
    }
  }

  /** With unique names in, names stay unique, and the only entry carrying
      `name` is the raised one. */
  lemma UpsertUnique(b: Board, name: string, best: int, date: string)
    requires UniqueNames(b)
    ensures UniqueNames(Upsert(b, name, best, date))
    ensures forall j :: 0 <= j < |Upsert(b, name, best, date)| &&
                        Upsert(b, name, best, date)[j].name == name ==>
                        Upsert(b, name, best, date)[j] == Raised(Lookup(b, name), name, best, date)
  {
    var u := Upsert(b, name, best, date);
    var i := FindIndex(b, name);
    UpsertSpec(b, name, best, date);
    var k := FindIndex(u, name);
    assert u[k] == Raised(Lookup(b, name), name, best, date);
    forall j | 0 <= j < |u| && u[j].name == name
      ensures j == k
    {
    }
  }

  /** Insertion into a descending board, before the first strictly lower
      score: an entry goes ahead of equal scores that follow it, which is
      what makes the sort below stable. */
  function InsertDesc(e: Entry, l: Board): (r: Board)
    ensures |r| == |l| + 1
    ensures multiset(r) == multiset(l) + multiset{e}
    ensures r[0] == e || (|l| > 0 && r[0] == l[0])
  {
    if |l| == 0 || e.score >= l[0].score then [e] + l
    else
      assert l == [l[0]] + l[1..];
      [l[0]] + InsertDesc(e, l[1..])
  }

  /** Inserting into a descending board keeps it descending. */
  lemma {:induction false} InsertDescSorted(e: Entry, l: Board)
    requires SortedDesc(l)
    ensures SortedDesc(InsertDesc(e, l))
  {
    if |l| > 0 && e.score < l[0].score {
      var rest := InsertDesc(e, l[1..]);
      InsertDescSorted(e, l[1..]);
      var r := [l[0]] + rest;
      assert InsertDesc(e, l) == r;
      forall i, j | 0 <= i < j < |r|
        ensures r[i].score >= r[j].score
      {
        assert r[j] == rest[j - 1];
        if i == 0 {
          assert rest[0].score <= l[0].score;
          assert rest[0].score >= rest[j - 1].score;
        } else {
          assert r[i] == rest[i - 1];
        }
      }
    }
  }

  /** A stable sort by score, highest first: a permutation, in order. */
  function SortDesc(b: Board): (r: Board)
    ensures |r| == |b|
    ensures multiset(r) == multiset(b)
    ensures SortedDesc(r)
  {
    if |b| == 0 then []
    else
      assert b == [b[0]] + b[1..];
      InsertDescSorted(b[0], SortDesc(b[1..]));
      InsertDesc(b[0], SortDesc(b[1..]))
  }

  /** Sorting a board that is already in order changes nothing. */
  lemma {:induction false} SortOfSorted(b: Board)
    requires SortedDesc(b)
    ensures SortDesc(b) == b
  {
    if |b| > 0 {
      SortOfSorted(b[1..]);
    }
  }

  /** An entry no higher than anything on a sorted board sorts to its end. */
  lemma {:induction false} SortAppendLowest(b: Board, e: Entry)
    requires SortedDesc(b)
    requires forall i :: 0 <= i < |b| ==> b[i].score >= e.score
    ensures SortDesc(b + [e]) == b + [e]
  {
    if |b| == 0 {
    } else {
      assert (b + [e])[1..] == b[1..] + [e];
      SortAppendLowest(b[1..], e);
    }
  }

  /** The first `Capacity` entries. */
  function Truncate(b: Board): (r: Board)
    ensures |r| == if |b| <= Capacity then |b| else Capacity
    ensures r == b[..|r|]
  {
    if |b| <= Capacity then b else b[..Capacity]
  }

  /** Every entry of `u` that did not make it into `r` scores no more than
      any entry of `r`. */
  predicate KeepsTop(u: Board, r: Board) {
    forall e, i :: (e in multiset(u) - multiset(r) && 0 <= i < |r|) ==> e.score <= r[i].score
  }

  /** Truncating a sorted board keeps a prefix whose every entry scores at
      least as much as every entry cut off. */
  lemma TruncateKeepsTop(u: Board, s: Board)
    requires SortedDesc(s) && multiset(s) == multiset(u)
    ensures multiset(Truncate(s)) <= multiset(u)
    ensures KeepsTop(u, Truncate(s))
  {
    var r := Truncate(s);
    var rest := s[|r|..];
    assert s == r + rest;
    assert multiset(s) == multiset(r) + multiset(rest);
    forall e, i | e in multiset(s) - multiset(r) && 0 <= i < |r|
      ensures e.score <= r[i].score
    {
      assert e in multiset(rest);
      assert e in rest;
      var k :| 0 <= k < |rest| && rest[k] == e;
      assert s[|r| + k] == e;
      assert r[i] == s[i];
    }
  }

  /** The whole update. The board comes out sorted, at most ten long, made
      of entries of the updated board, and holding its highest scores: every
      entry left out scores no more than every entry kept. From a valid
      board with unique names it yields a valid one (SubmitPreservesValid). */
  function Submit(b: Board, name: string, best: int, date: string): (r: Board)
    ensures |r| == (var n := if Has(b, name) then |b| else |b| + 1;
                    if n <= Capacity then n else Capacity)
    ensures SortedDesc(r)
    ensures multiset(r) <= multiset(Upsert(b, name, best, date))
    ensures KeepsTop(Upsert(b, name, best, date), r)
  {
    var u := Upsert(b, name, best, date);
    var s := SortDesc(u);
    TruncateKeepsTop(u, s);
    assert |u| == if Has(b, name) then |b| else |b| + 1;
    Truncate(s)
  }

  /** A valid board stays valid: names stay unique, and the board stays
      sorted and bounded. */
  lemma SubmitPreservesValid(b: Board, name: string, best: int, date: string)
    requires UniqueNames(b)
    ensures Valid(Submit(b, name, best, date))
  {
    UpsertUnique(b, name, best, date);
    UniqueOfSubMultiset(Upsert(b, name, best, date), Submit(b, name, best, date));
  }

  /** An entry of the updated board: either the raised entry for `name`, or
      an untouched entry of the old board under another name. */
  lemma UpsertEntryOrigin(b: Board, name: string, best: int, date: string, x: Entry)
    requires x in multiset(Upsert(b, name, best, date))
    ensures x.name == name || x in b
    ensures UniqueNames(b) && x.name == name ==> x == Raised(Lookup(b, name), name, best, date)
  {
    var u := Upsert(b, name, best, date);
    assert x in u;
    var k :| 0 <= k < |u| && u[k] == x;
    if x.name != name {
      assert k < |b| && k != FindIndex(b, name);
      assert b[k] == x;
    }
    if UniqueNames(b) {
      UpsertUnique(b, name, best, date);
    }
  }

  /** After an update (from a board with unique names) the player's entry,
      if it is on the board, is the raised one. */
  lemma SubmitPlayerEntry(b: Board, name: string, best: int, date: string)
    requires UniqueNames(b)
    ensures var r := Submit(b, name, best, date);
            forall j :: 0 <= j < |r| && r[j].name == name ==>
                        r[j] == Raised(Lookup(b, name), name, best, date)
  {
    var r := Submit(b, name, best, date);
    forall j | 0 <= j < |r| && r[j].name == name
      ensures r[j] == Raised(Lookup(b, name), name, best, date)
    {
      assert r[j] in multiset(r);
      UpsertEntryOrigin(b, name, best, date, r[j]);
    }
  }

  /** If the player's entry fell off, the board is full of entries scoring
      at least as much as it. */
  lemma SubmitPlayerFellOff(b: Board, name: string, best: int, date: string)
    ensures var r := Submit(b, name, best, date);
            !Has(r, name) ==>
              && |r| == Capacity
              && forall i :: 0 <= i < |r| ==> r[i].score >= Raised(Lookup(b, name), name, best, date).score
  {
    var r := Submit(b, name, best, date);
    if !Has(r, name) {
      var u := Upsert(b, name, best, date);
      var e := Raised(Lookup(b, name), name, best, date);
      UpsertSpec(b, name, best, date);
      var k := FindIndex(u, name);
      assert u[k] == e;
      assert e in multiset(u);
      assert e !in multiset(r);
      assert e in multiset(u) - multiset(r);
    }
  }

  /** Every other entry on the updated board was on the old board. */
  lemma SubmitKeepsOthers(b: Board, name: string, best: int, date: string)
    ensures var r := Submit(b, name, best, date);
            forall i :: 0 <= i < |r| && r[i].name != name ==> r[i] in b
  {
    var r := Submit(b, name, best, date);
    forall i | 0 <= i < |r| && r[i].name != name
      ensures r[i] in b
    {
      assert r[i] in multiset(r);
      UpsertEntryOrigin(b, name, best, date, r[i]);
    }
  }

  /** No name's score goes down through an update. */
  lemma SubmitNeverLowers(b: Board, name: string, best: int, date: string)
    requires UniqueNames(b)
    ensures var r := Submit(b, name, best, date);
            forall i, j :: 0 <= i < |r| && 0 <= j < |b| && r[i].name == b[j].name ==>
                           r[i].score >= b[j].score
  {
    var r := Submit(b, name, best, date);
    forall i, j | 0 <= i < |r| && 0 <= j < |b| && r[i].name == b[j].name
      ensures r[i].score >= b[j].score
    {
      assert r[i] in multiset(r);
      UpsertEntryOrigin(b, name, best, date, r[i]);
      if r[i].name == name {
        assert FindIndex(b, name) == j;
      } else {
        var k :| 0 <= k < |b| && b[k] == r[i];
      }
    }
  }

  /** Submitting the same best twice for the same player leaves the board of
      the first submission, whatever the second date. */
  lemma SubmitIdempotent(b: Board, name: string, best: int, d1: string, d2: string)
    requires UniqueNames(b)
    ensures Submit(Submit(b, name, best, d1), name, best, d2) == Submit(b, name, best, d1)
  {
    var r := Submit(b, name, best, d1);
    var e := Raised(Lookup(b, name), name, best, d1);
    assert e.score >= best;
    SubmitPreservesValid(b, name, best, d1);
    if Has(r, name) {
      SubmitPlayerEntry(b, name, best, d1);
      ResubmitPresent(r, name, best, d2, e);
    } else {
      SubmitPlayerFellOff(b, name, best, d1);
      ResubmitAbsent(r, name, best, d2, e);
    }
  }

  /** Re-submitting a best that a valid board's entry already reaches. */
  lemma ResubmitPresent(r: Board, name: string, best: int, date: string, e: Entry)
    requires Valid(r) && Has(r, name) && e.score >= best
    requires forall j :: 0 <= j < |r| && r[j].name == name ==> r[j] == e
    ensures Submit(r, name, best, date) == r
  {
    var k := FindIndex(r, name);
    assert r[k] == e;
    assert Upsert(r, name, best, date) == r;
    SortOfSorted(r);
  }

  /** Re-submitting a best that fell off a full board. */
  lemma ResubmitAbsent(r: Board, name: string, best: int, date: string, e: Entry)
    requires Valid(r) && !Has(r, name) && |r| == Capacity && e.score >= best
    requires forall i :: 0 <= i < |r| ==> r[i].score >= e.score
    ensures Submit(r, name, best, date) == r
  {
    var x := Entry(name, best, date);
    assert Upsert(r, name, best, date) == r + [x];
    SortAppendLowest(r, x);
    assert (r + [x])[..Capacity] == r;
  }

  /** A board whose entries all come from a board with unique names, each
      at most as often, has unique names too. */
  lemma UniqueOfSubMultiset(u: Board, r: Board)
    requires UniqueNames(u)
    requires multiset(r) <= multiset(u)
    ensures UniqueNames(r)
  {
    forall i, j | 0 <= i < j < |r|
      ensures r[i].name != r[j].name
    {
      if r[i].name == r[j].name {
        assert r[i] in multiset(u) && r[j] in multiset(u);
        var a :| 0 <= a < |u| && u[a] == r[i];
        var c :| 0 <= c < |u| && u[c] == r[j];
        assert a == c;
        assert r[i] == r[j];
        assert multiset(r)[r[i]] >= 2 by {
          assert r == r[..i] + [r[i]] + r[i + 1..];
          assert r[j] in r[i + 1..] by { assert r[i + 1..][j - i - 1] == r[j]; }
        }
        CountOfUnique(u, a);
        assert false;
      }
    }
  }

  /** In a board with unique names, an entry occurs at most once. */
  lemma {:induction false} CountOfUnique(u: Board, a: int)
    requires UniqueNames(u) && 0 <= a < |u|
    ensures multiset(u)[u[a]] == 1
  {
    if a == 0 {
      assert u == [u[0]] + u[1..];
      assert u[0] !in u[1..];
    } else {
      assert u == [u[0]] + u[1..];
      assert u[0] != u[a];
      CountOfUnique(u[1..], a - 1);
    }
  }

  // ---------------------------------------------------------------------
  // Scores across many updates

  /** A sub-multiset is no larger. */
  lemma SubMultisetSize<T>(a: multiset<T>, b: multiset<T>)
    requires a <= b
    ensures |a| <= |b|
  {
    assert b == a + (b - a);
  }

  /** A name missing from a full board gets back on only with a best above
      the board's lowest score: a tie is appended last, stays last through
      the stable sort, and is cut. */
  lemma ReentryNeedsHigher(b: Board, name: string, best: int, date: string)
    requires Valid(b) && |b| == Capacity && !Has(b, name)
    ensures Has(Submit(b, name, best, date), name) ==> best > b[Capacity - 1].score
  {
    if best <= b[Capacity - 1].score {
      var x := Entry(name, best, date);
      assert Upsert(b, name, best, date) == b + [x];
      SortAppendLowest(b, x);
      assert (b + [x])[..Capacity] == b;
    }
  }

  /** Entries drawn from a board whose scores are all at least `t` score at
      least `t` too. */
  lemma DrawnAtLeast(u: Board, r: Board, t: int)
    requires multiset(r) <= multiset(u)
    requires forall j :: 0 <= j < |u| ==> u[j].score >= t
    ensures forall i :: 0 <= i < |r| ==> r[i].score >= t
  {
    forall i | 0 <= i < |r|
      ensures r[i].score >= t
    {
      assert r[i] in multiset(r);
      assert r[i] in u;
    }
  }

  /** The lowest score on a full board never goes down through an update:
      either the player's best is too low to get on and the board is
      unchanged, or every entry of the updated board scores at least the
      old lowest score. */
  lemma FloorNeverDrops(b: Board, name: string, best: int, date: string)
    requires Valid(b) && |b| == Capacity
    ensures |Submit(b, name, best, date)| == Capacity
    ensures Submit(b, name, best, date)[Capacity - 1].score >= b[Capacity - 1].score
  {
    var t := b[Capacity - 1].score;
    if !Has(b, name) && best <= t {
      var x := Entry(name, best, date);
      assert Upsert(b, name, best, date) == b + [x];
      SortAppendLowest(b, x);
      assert (b + [x])[..Capacity] == b;
    } else {
      UpdateAtLeastFloor(b, name, best, date);
      DrawnAtLeast(Upsert(b, name, best, date), Submit(b, name, best, date), t);
    }
  }

  /** Unless the player is missing with a best no higher than the lowest
      score, every entry of the update of a full valid board scores at
      least that lowest score. */
  lemma UpdateAtLeastFloor(b: Board, name: string, best: int, date: string)
    requires Valid(b) && |b| == Capacity
    requires Has(b, name) || best > b[Capacity - 1].score
    ensures forall j :: 0 <= j < |Upsert(b, name, best, date)| ==>
                        Upsert(b, name, best, date)[j].score >= b[Capacity - 1].score
  {
    UpsertNoLower(b, name, best, date);
  }

  /** Position by position, the update never lowers a score. */
  lemma UpsertNoLower(b: Board, name: string, best: int, date: string)
    ensures forall j :: 0 <= j < |b| ==> Upsert(b, name, best, date)[j].score >= b[j].score
  {
    UpsertSpec(b, name, best, date);
  }

  /** The board still vouches for `name` having scored `s`: every entry
      under the name scores at least `s`, and the name is either on the
      board or was pushed off a full board whose lowest score is at least
      `s`. */
  predicate Remembers(b: Board, name: string, s: int) {
    && (forall i :: 0 <= i < |b| && b[i].name == name ==> b[i].score >= s)
    && (Has(b, name) || (|b| == Capacity && b[Capacity - 1].score >= s))
  }

  /** Every update keeps what a valid board remembers. */
  lemma SubmitRemembers(b: Board, name: string, best: int, date: string, q: string, s: int)
    requires Valid(b) && Remembers(b, q, s)
    ensures Remembers(Submit(b, name, best, date), q, s)
  {
    if Has(b, q) {
      RemembersPresent(b, name, best, date, q, s);
    } else {
      RemembersAbsent(b, name, best, date, q, s);
    }
  }

  lemma RemembersPresent(b: Board, name: string, best: int, date: string, q: string, s: int)
    requires Valid(b) && Remembers(b, q, s) && Has(b, q)
    ensures Remembers(Submit(b, name, best, date), q, s)
  {
    var r := Submit(b, name, best, date);
    var j := FindIndex(b, q);
    SubmitNeverLowers(b, name, best, date);
    if !Has(r, q) {
      if q == name {
        SubmitPlayerFellOff(b, name, best, date);
        assert Lookup(b, name) == Some(b[j]);
      } else {
        OtherPushedOff(b, name, best, date, j);
      }
    }
  }

  /** Another player's entry that an update pushes off leaves a full board
      of entries scoring at least as much. */
  lemma OtherPushedOff(b: Board, name: string, best: int, date: string, j: int)
    requires 0 <= j < |b| && b[j].name != name
    ensures !Has(Submit(b, name, best, date), b[j].name) ==>
              && |Submit(b, name, best, date)| == Capacity
              && Submit(b, name, best, date)[Capacity - 1].score >= b[j].score
  {
    var r := Submit(b, name, best, date);
    if !Has(r, b[j].name) {
      var u := Upsert(b, name, best, date);
      UpsertSpec(b, name, best, date);
      assert u[j] == b[j];
      assert b[j] in multiset(u);
      assert b[j] !in multiset(r);
      assert multiset(r) + multiset{b[j]} <= multiset(u);
      SubMultisetSize(multiset(r) + multiset{b[j]}, multiset(u));
      assert b[j] in multiset(u) - multiset(r);
    }
  }

  lemma RemembersAbsent(b: Board, name: string, best: int, date: string, q: string, s: int)
    requires Valid(b) && Remembers(b, q, s) && !Has(b, q)
    ensures Remembers(Submit(b, name, best, date), q, s)
  {
    var r := Submit(b, name, best, date);
    FloorNeverDrops(b, name, best, date);
    SubmitKeepsOthers(b, name, best, date);
    if q == name {
      ReentryNeedsHigher(b, name, best, date);
      SubmitPlayerEntry(b, name, best, date);
      assert Lookup(b, name) == None;
    }
    assert forall i :: 0 <= i < |r| && r[i].name == q ==> r[i].score >= s;
  }

  /** No name on the earlier board has a lower score on the later one. */
  predicate NeverLower(before: Board, after: Board) {
    forall i, j :: 0 <= i < |after| && 0 <= j < |before| && after[i].name == before[j].name ==>
                   after[i].score >= before[j].score
  }

  /** A board with unique names remembers each of its own entries. */
  lemma RemembersOwn(b: Board, j: int)
    requires UniqueNames(b) && 0 <= j < |b|
    ensures Remembers(b, b[j].name, b[j].score)
  {
    assert Has(b, b[j].name);
  }

  /** A later board that remembers every entry of an earlier one never
      shows a lower score for any of its names. */
  lemma RememberedNeverLower(before: Board, after: Board)
    requires forall j :: 0 <= j < |before| ==> Remembers(after, before[j].name, before[j].score)
    ensures NeverLower(before, after)
  {
  }
}
