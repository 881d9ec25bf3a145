/** The K-best sampler of fcyc.c. */
module Sampler {
  ghost predicate Ascending(s: seq<real>) {
    forall i, j :: 0 <= i < j < |s| ==> s[i] <= s[j]
  }

  // s with x put where the insertion loop stops: after every element that is not greater.
  ghost predicate InsertedAt(s: seq<real>, x: real, at: int, out: seq<real>) {
    && 0 <= at <= |s| && out == s[..at] + [x] + s[at..]
    && (forall i :: 0 <= i < at ==> s[i] <= x) && (forall i :: at <= i < |s| ==> x < s[i])
  }

  lemma {:induction false} PutTogether(s: seq<real>, x: real, at: int, out: seq<real>)
    requires 0 <= at <= |s| && |out| == |s| + 1 && out[at] == x
    requires forall i :: 0 <= i < at ==> out[i] == s[i]
    requires forall i :: at <= i < |s| ==> out[i + 1] == s[i]
    ensures out == s[..at] + [x] + s[at..]
  {
    var all := s[..at] + [x] + s[at..];
    forall i | at < i <= |s| ensures out[i] == all[i] {
      assert out[(i - 1) + 1] == s[i - 1];
    }
  }

  lemma {:induction false} InsertedIsAscending(s: seq<real>, x: real, at: int, out: seq<real>)
    requires Ascending(s) && InsertedAt(s, x, at, out)
    ensures Ascending(out) && multiset(out) == multiset(s) + multiset{x}
  {
    assert s == s[..at] + s[at..];
    forall i, j | 0 <= i < j < |out| ensures out[i] <= out[j] {
      var i', j' := if i <= at then i else i - 1, if j <= at then j else j - 1;
    }
  }

  // kept holds the k smallest of all samples seen, in ascending order; with ties any choice will do.
  ghost predicate KSmallest(kept: seq<real>, k: int, seen: multiset<real>) {
    && Ascending(kept) && |kept| == (if |seen| < k then |seen| else k)
    && multiset(kept) <= seen
    && forall i, d :: 0 <= i < |kept| && d in seen - multiset(kept) ==> kept[i] <= d
  }

  lemma {:induction false} KeptFacts(kept: seq<real>, k: int, seen: multiset<real>)
    requires KSmallest(kept, k, seen)
    ensures Ascending(kept) && |kept| == if |seen| < k then |seen| else k
  {
  }

  lemma {:induction false} HeadAscending(kept: seq<real>, k: int, seen: multiset<real>, head: seq<real>)
    requires KSmallest(kept, k, seen) && kept != [] && head == kept[..|kept| - 1]
    ensures Ascending(head)
  {
  }

  lemma {:induction false} SampleKept(kept: seq<real>, k: int, seen: multiset<real>, x: real, at: int, out: seq<real>)
    requires KSmallest(kept, k, seen) && |seen| < k && InsertedAt(kept, x, at, out)
    ensures KSmallest(out, k, seen + multiset{x})
  {
    InsertedIsAscending(kept, x, at, out);
    assert |seen - multiset(kept)| == 0;
  }

  lemma {:induction false} SampleReplaces(kept: seq<real>, k: int, seen: multiset<real>, x: real, at: int,
                                          out: seq<real>)
    requires 0 < k && KSmallest(kept, k, seen) && k <= |seen| && x < kept[k - 1]
    requires InsertedAt(kept[..k - 1], x, at, out)
    ensures KSmallest(out, k, seen + multiset{x})
  {
    var head, last := kept[..k - 1], kept[k - 1];
    assert kept == head + [last];
    InsertedIsAscending(head, x, at, out);
    var now := seen + multiset{x};
    assert now - multiset(out) == seen - multiset(kept) + multiset{last};
    forall i, d | 0 <= i < |out| && d in now - multiset(out) ensures out[i] <= d {
      assert d == last || d in seen - multiset(kept);
      AtMostLast(kept, x, at, out, i);
    }
  }

  // The new sample and those it is put among are at most the one that makes room for it.
  lemma {:induction false} AtMostLast(kept: seq<real>, x: real, at: int, out: seq<real>, i: int)
    requires 0 < |kept| && Ascending(kept) && x < kept[|kept| - 1]
    requires InsertedAt(kept[..|kept| - 1], x, at, out) && 0 <= i < |out|
    ensures out[i] <= kept[|kept| - 1]
  {
  }

  lemma {:induction false} SampleDropped(kept: seq<real>, k: int, seen: multiset<real>, x: real)
    requires 0 < k && KSmallest(kept, k, seen) && k <= |seen| && kept[k - 1] <= x
    ensures KSmallest(kept, k, seen + multiset{x})
  {
    assert seen + multiset{x} - multiset(kept) == seen - multiset(kept) + multiset{x};
  }

  // x has come down to pos in now; the values it has passed are one place further up than in s.
  ghost predicate Sinking(now: seq<real>, start: seq<real>, s: seq<real>, x: real, pos: int) {
    && |s| < |now| == |start| && 0 <= pos <= |s| && now[pos] == x
    && (forall i :: 0 <= i < pos ==> now[i] == s[i])
    && (forall i :: pos <= i < |s| ==> now[i + 1] == s[i] && x < s[i])
    && (forall i :: |s| < i < |now| ==> now[i] == start[i])
  }

  lemma {:induction false} SinkingStarts(start: seq<real>, s: seq<real>, last: int)
    requires |s| == last < |start| && start[..last] == s
    ensures Sinking(start, start, s, start[last], last)
  {
    assert forall i :: 0 <= i < last ==> start[..last][i] == start[i];
  }

  lemma {:induction false} SinkingStep(now: seq<real>, start: seq<real>, s: seq<real>, x: real, pos: int)
    requires Sinking(now, start, s, x, pos) && 0 < pos && now[pos - 1] > x
    ensures Sinking(now[pos - 1 := now[pos]][pos := now[pos - 1]], start, s, x, pos - 1)
  {
  }

  lemma {:induction false} Settled(now: seq<real>, start: seq<real>, s: seq<real>, x: real, pos: int)
    requires Sinking(now, start, s, x, pos) && Ascending(s) && (pos > 0 ==> now[pos - 1] <= x)
    ensures InsertedAt(s, x, pos, now[..|s| + 1]) && now[|s| + 1..] == start[|s| + 1..]
  {
    PutTogether(s, x, pos, now[..|s| + 1]);
  }

  class Sampler {
    const kbest: int
    const epsilon: real
    const values: array<real>
    var sampleCount: int
    ghost var seen: multiset<real>

    ghost predicate Valid()
      reads this, values
    {
      && 0 < kbest == values.Length && sampleCount == |seen|
      && KSmallest(values[..Kept()], kbest, seen)
    }

    ghost function Kept(): int
      reads this
    {
      if sampleCount < kbest then sampleCount else kbest
    }

    // init_sampler
    constructor (kbest: int, epsilon: real)
      requires 0 < kbest
      ensures Valid() && seen == multiset{} && this.kbest == kbest && this.epsilon == epsilon && fresh(values)
    {
      this.kbest, this.epsilon := kbest, epsilon;
      values := new real[kbest](_ => 0.0);
      sampleCount, seen := 0, multiset{};
    }

    method AddSample(val: real)
      requires Valid()
      modifies this, values
      ensures Valid() && seen == old(seen) + multiset{val}
    {
      hide KSmallest;
      ghost var kept, more := values[..Kept()], seen + multiset{val};
      KeptFacts(kept, kbest, seen);
      OneMore(seen, val);
      if sampleCount < kbest {
        Fill(val, kept);
      } else if val < values[kbest - 1] {
        ReplaceLast(val, kept);
      } else {
        SampleDropped(kept, kbest, seen, val);
      }
      sampleCount := sampleCount + 1;
      seen := more;
    }

    lemma OneMore(s: multiset<real>, x: real)
      ensures |s + multiset{x}| == |s| + 1
    {
    }

    // add_sample while there is room
    method Fill(val: real, ghost kept: seq<real>)
      requires sampleCount == |kept| == |seen| < kbest == values.Length && kept == values[..sampleCount]
      requires KSmallest(kept, kbest, seen)
      modifies values
      ensures KSmallest(values[..sampleCount + 1], kbest, seen + multiset{val})
    {
      KeptFacts(kept, kbest, seen);
      hide KSmallest, InsertedAt;
      ghost var at := Insert(sampleCount, val, kept);
      SampleKept(kept, kbest, seen, val, at, values[..sampleCount + 1]);
    }

    // add_sample when the sample displaces the greatest value kept
    method ReplaceLast(val: real, ghost kept: seq<real>)
      requires 0 < |kept| == kbest == values.Length <= |seen| && kept == values[..kbest] && val < values[kbest - 1]
      requires KSmallest(kept, kbest, seen)
      modifies values
      ensures KSmallest(values[..kbest], kbest, seen + multiset{val})
    {
      hide KSmallest, InsertedAt, Ascending;
      ghost var head := values[..kbest - 1];
      assert head == kept[..kbest - 1];
      HeadAscending(kept, kbest, seen, head);
      ghost var at := Insert(kbest - 1, val, head);
      SampleReplaces(kept, kbest, seen, val, at, values[..kbest]);
    }

    // The sample at last, which sinks to its place among the values before it.
    method Insert(last: int, val: real, ghost before: seq<real>) returns (ghost at: int)
      requires 0 <= last < values.Length && values[..last] == before && Ascending(before)
      modifies values
      ensures InsertedAt(before, val, at, values[..last + 1])
    {
      hide Ascending, InsertedAt;
      values[last] := val;
      at := Settle(last, before);
    }

    // The insertion loop of add_sample.
    method Settle(last: int, ghost before: seq<real>) returns (ghost at: int)
      requires 0 <= last < values.Length && values[..last] == before && Ascending(before)
      modifies values
      ensures InsertedAt(before, old(values[last]), at, values[..last + 1])
      ensures values[last + 1..] == old(values[last + 1..])
    {
      hide Ascending;
      var pos := last;
      ghost var x, start := values[last], values[..];
      hide Sinking;
      SinkingStarts(start, before, last);
      while pos > 0 && values[pos - 1] > values[pos]
        invariant 0 <= pos <= last && Sinking(values[..], start, before, x, pos)
      {
        ghost var now := values[..];
        values[pos - 1], values[pos] := values[pos], values[pos - 1];
        assert values[..] == now[pos - 1 := now[pos]][pos := now[pos - 1]];
        SinkingStep(now, start, before, x, pos);
        pos := pos - 1;
      }
      at := pos;
      Settled(values[..], start, before, x, pos);
      assert values[..last + 1] == values[..][..last + 1] && values[last + 1..] == values[..][last + 1..];
    }

    method HasConverged() returns (r: bool)
      requires Valid()
      ensures r <==> kbest <= |seen| && forall i :: 0 <= i < kbest ==> values[i] <= (1.0 + epsilon) * values[0]
    {
      r := sampleCount >= kbest && (1.0 + epsilon) * values[0] >= values[kbest - 1];
    }
  }
}
