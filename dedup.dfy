/** The near-duplicate rule of the video search (`search` in Backend/index.py),
    as a specification on values. The vector store returns matches best first;
    a match is kept when no match already kept from the same video starts
    within PROXIMITY seconds of it. `Kept` gives the positions of the kept
    matches, `Accepted` the kept matches themselves. */
module Dedup {
  import opened Chunks

  /** Two kept starts of one video must differ by more than this many seconds. */
  const PROXIMITY: int := 10

  function Abs(x: int): int {
    if x < 0 then -x else x
  }

  /** `a` and `b` belong to one video and start within PROXIMITY seconds of each other. */
  predicate Close(a: Metadata, b: Metadata) {
    a.videoId == b.videoId && Abs(b.start - a.start) <= PROXIMITY
  }

  /** `m` is not close to any match in `acc`. */
  predicate Admissible(acc: seq<Metadata>, m: Metadata) {
    forall a :: a in acc ==> !Close(a, m)
  }

  /** No two matches of `acc` from one video start within PROXIMITY seconds. */
  predicate Separated(acc: seq<Metadata>) {
    forall a, b :: 0 <= a < b < |acc| ==> !Close(acc[a], acc[b])
  }

  /** Subsequence, defined independently of the pass: `xs` is obtained from
      `ys` by deleting elements. */
  predicate IsSubsequence(xs: seq<Metadata>, ys: seq<Metadata>)
    decreases |ys|
  {
    if ys == [] then xs == []
    else
      (xs != [] && xs[|xs| - 1] == ys[|ys| - 1] && IsSubsequence(xs[..|xs| - 1], ys[..|ys| - 1]))
      || IsSubsequence(xs, ys[..|ys| - 1])
  }

  /** The matches the greedy pass keeps, in input order: each match, best
      ranked first, is kept when it is admissible against those kept before it. */
  function Accepted(ms: seq<Metadata>): (acc: seq<Metadata>)
    ensures |acc| <= |ms|
    decreases |ms|
  {
    if ms == [] then []
    else
      var i := |ms| - 1;
      var prev := Accepted(ms[..i]);
      if Admissible(prev, ms[i]) then prev + [ms[i]] else prev
  }

  /** Positions in `ms` of the kept matches: the `j`-th accepted match is the
      match at position `Kept(ms)[j]`. */
  function Kept(ms: seq<Metadata>): (k: seq<nat>)
    ensures |k| == |Accepted(ms)|
    ensures forall j :: 0 <= j < |k| ==> k[j] < |ms| && ms[k[j]] == Accepted(ms)[j]
    decreases |ms|
  {
    if ms == [] then []
    else
      var i := |ms| - 1;
      var prev := Kept(ms[..i]);
      if Admissible(Accepted(ms[..i]), ms[i]) then prev + [i] else prev
  }

  /** The kept positions are strictly increasing: the pass never reorders. */
  lemma {:induction false} KeptIncreasing(ms: seq<Metadata>)
    ensures forall a, b :: 0 <= a < b < |Kept(ms)| ==> Kept(ms)[a] < Kept(ms)[b]
    decreases |ms|
  {
    if ms != [] {
      var i := |ms| - 1;
      var prev := Kept(ms[..i]);
      KeptIncreasing(ms[..i]);
      var k := Kept(ms);
      assert k == prev + [i] || k == prev;
      forall a, b | 0 <= a < b < |k| ensures k[a] < k[b] {
        if b < |prev| {
          assert k[a] == prev[a] && k[b] == prev[b];
        } else {
          assert k[a] == prev[a] && prev[a] < i && k[b] == i;
        }
      }
    }
  }

  /** One step of the pass, unfolded for callers that name the last match. */
  lemma AcceptedStep(ms: seq<Metadata>)
    requires ms != []
    ensures var i := |ms| - 1; var acc := Accepted(ms[..i]);
      Accepted(ms) == if Admissible(acc, ms[i]) then acc + [ms[i]] else acc
  {
  }

  /** The result is an order-preserving subsequence of the matches: nothing is
      reordered or invented. */
  lemma {:induction false} AcceptedIsSubsequence(ms: seq<Metadata>)
    ensures IsSubsequence(Accepted(ms), ms)
    decreases |ms|
  {
    if ms != [] {
      var i := |ms| - 1;
      AcceptedStep(ms);
      AcceptedIsSubsequence(ms[..i]);
      var acc := Accepted(ms[..i]);
      if Admissible(acc, ms[i]) {
        assert (acc + [ms[i]])[..|acc|] == acc;
      }
    }
  }

  /** Every pair of kept matches from one video is more than PROXIMITY seconds apart. */
  lemma {:induction false} AcceptedSeparated(ms: seq<Metadata>)
    ensures Separated(Accepted(ms))
    decreases |ms|
  {
    if ms != [] {
      var i := |ms| - 1;
      AcceptedStep(ms);
      AcceptedSeparated(ms[..i]);
      var acc := Accepted(ms[..i]);
      if Admissible(acc, ms[i]) {
        var r := acc + [ms[i]];
        forall a, b | 0 <= a < b < |r| ensures !Close(r[a], r[b]) {
          if b == |acc| {
            assert r[a] == acc[a] && acc[a] in acc;
          } else {
            assert r[a] == acc[a] && r[b] == acc[b];
          }
        }
      }
    }
  }

  /** What the pass keeps among the first `n` matches does not depend on the
      matches after them. */
  lemma {:induction false} KeptPrefix(ms: seq<Metadata>, n: nat)
    requires n <= |ms|
    ensures forall j :: j in Kept(ms[..n]) <==> j in Kept(ms) && j < n
    decreases |ms|
  {
    if n < |ms| {
      var i := |ms| - 1;
      var prev := Kept(ms[..i]);
      assert Kept(ms) == prev + [i] || Kept(ms) == prev;
      assert ms[..i][..n] == ms[..n];
      KeptPrefix(ms[..i], n);
    } else {
      assert ms[..n] == ms;
    }
  }

  /** The last step of `Kept` on the first `i + 1` matches. */
  lemma KeptLast(ms: seq<Metadata>, i: nat)
    requires i < |ms|
    ensures Kept(ms[..i + 1]) ==
      if Admissible(Accepted(ms[..i]), ms[i]) then Kept(ms[..i]) + [i] else Kept(ms[..i])
  {
    assert ms[..i + 1][..i] == ms[..i] && ms[..i + 1][i] == ms[i];
  }

  /** The exact acceptance rule: the match at position `i` is kept if and only
      if it is admissible against the matches accepted before it. */
  lemma KeptExactly(ms: seq<Metadata>, i: nat)
    requires i < |ms|
    ensures i in Kept(ms) <==> Admissible(Accepted(ms[..i]), ms[i])
  {
    var prev := Kept(ms[..i]);
    forall t | 0 <= t < |prev| ensures prev[t] != i {
      assert prev[t] < |ms[..i]|;
    }
    assert i in Kept(ms[..i + 1]) <==> Admissible(Accepted(ms[..i]), ms[i]) by {
      KeptLast(ms, i);
    }
    assert i in Kept(ms[..i + 1]) <==> i in Kept(ms) by {
      KeptPrefix(ms, i + 1);
    }
  }

  /** The acceptance rule over positions: the match at position `i` is kept
      if and only if no kept match before it comes from the same video within
      PROXIMITY seconds. */
  lemma KeptByPosition(ms: seq<Metadata>, i: nat)
    requires i < |ms|
    ensures i in Kept(ms) <==> forall j :: j in Kept(ms) && j < i ==> !Close(ms[j], ms[i])
  {
    var m := ms[i];
    var prev := Kept(ms[..i]);
    var acc := Accepted(ms[..i]);
    KeptExactly(ms, i);
    KeptPrefix(ms, i);
    if Admissible(acc, m) {
      forall j | j in Kept(ms) && j < i ensures !Close(ms[j], m) {
        var t :| 0 <= t < |prev| && prev[t] == j;
        assert acc[t] in acc;
      }
    } else {
      var a :| a in acc && Close(a, m);
      var t :| 0 <= t < |acc| && acc[t] == a;
      assert prev[t] in prev;
      assert Close(ms[prev[t]], m);
    }
  }

  /** The first match, and the first match of every video, is always kept. */
  lemma FirstOfVideoKept(ms: seq<Metadata>, i: nat)
    requires i < |ms|
    requires forall j :: 0 <= j < i ==> ms[j].videoId != ms[i].videoId
    ensures i in Kept(ms)
  {
    KeptByPosition(ms, i);
  }

  /** Matches that are already separated all survive the pass. */
  lemma {:induction false} SeparatedAccepted(ms: seq<Metadata>)
    requires Separated(ms)
    ensures Accepted(ms) == ms
    decreases |ms|
  {
    if ms != [] {
      var i := |ms| - 1;
      AcceptedStep(ms);
      SeparatedAccepted(ms[..i]);
      forall a | a in ms[..i] ensures !Close(a, ms[i]) {
        var j :| 0 <= j < i && ms[..i][j] == a;
        assert ms[j] == a;
      }
      assert ms[..i] + [ms[i]] == ms;
    }
  }

  /** Running the pass on its own output changes nothing. */
  lemma AcceptedIdempotent(ms: seq<Metadata>)
    ensures Accepted(Accepted(ms)) == Accepted(ms)
  {
    AcceptedSeparated(ms);
    SeparatedAccepted(Accepted(ms));
  }

  /** Three hits around one moment of video "A" and one elsewhere: the hit at
      15 s lies within 10 s of the better-ranked hit at 10 s and is dropped. */
  lemma ClusterExample()
    ensures var a10 := Metadata("A", 10, "x"); var a15 := Metadata("A", 15, "y");
      var a50 := Metadata("A", 50, "z"); var b10 := Metadata("B", 10, "w");
      Accepted([a10, a15, a50, b10]) == [a10, a50, b10]
  {
    var a10 := Metadata("A", 10, "x");
    var a15 := Metadata("A", 15, "y");
    var a50 := Metadata("A", 50, "z");
    var b10 := Metadata("B", 10, "w");
    assert Accepted([a10]) == [a10] by {
      assert [a10][..0] == [];
      AcceptedStep([a10]);
    }
    assert Accepted([a10, a15]) == [a10] by {
      assert [a10, a15][..1] == [a10];
      AcceptedStep([a10, a15]);
      assert a10 in [a10] && Close(a10, a15);
    }
    assert Accepted([a10, a15, a50]) == [a10, a50] by {
      assert [a10, a15, a50][..2] == [a10, a15];
      AcceptedStep([a10, a15, a50]);
      assert !Close(a10, a50);
    }
    assert Accepted([a10, a15, a50, b10]) == [a10, a50, b10] by {
      assert [a10, a15, a50, b10][..3] == [a10, a15, a50];
      AcceptedStep([a10, a15, a50, b10]);
      assert !Close(a10, b10) && !Close(a50, b10);
    }
  }
}
