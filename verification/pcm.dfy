/** encoders/pcm.py: pulse-code modulation between bit lists and
    (pulse, gap) pairs measured in bit periods. */
module Pcm {

  /** Python's `[v] * n`: empty when `n` is not positive. */
  function Repeat(v: int, n: int): (r: seq<int>)
    ensures |r| == if n > 0 then n else 0
    ensures forall i :: 0 <= i < |r| ==> r[i] == v
    decreases if n > 0 then n else 0
  {
    if n <= 0 then [] else [v] + Repeat(v, n - 1)
  }

  /** `decode_pcm_signal(pulses)`: each pair gives `pulse` ones then `gap`
      zeros; a non-positive width contributes nothing. */
  function DecodePulses(pulses: seq<(int, int)>): seq<int>
    decreases |pulses|
  {
    if pulses == [] then []
    else
      var (pulse, gap) := pulses[0];
      Repeat(1, pulse) + Repeat(0, gap) + DecodePulses(pulses[1..])
  }

  /** How many elements equal to `v` follow one another from position `i`:
      the count an inner loop of `encode_pcm_signal` gathers. */
  function Run(bits: seq<int>, i: int, v: int): (r: nat)
    requires 0 <= i <= |bits|
    ensures i + r <= |bits|
    decreases |bits| - i
  {
    if i < |bits| && bits[i] == v then 1 + Run(bits, i + 1, v) else 0
  }

  /** The gap written for `cnt0` zeros: `cnt0 - (s_short - s_long)`, or 0 when
      there are no zeros. */
  function Gap(cnt0: int, sShort: int, sLong: int): int {
    if cnt0 > 0 then cnt0 - (sShort - sLong) else 0
  }

  /** The outer loop of `encode_pcm_signal` from position `i`: where no run
      of ones starts (the count of ones is 0 exactly when `bits[i]` is not
      1) the position is skipped; otherwise the run of ones and
      the run of zeros after it make one (pulse, gap) pair. Elements are
      compared with 1 and 0, so any other value ends a run and is then
      skipped. */
  function EncodeFrom(bits: seq<int>, i: int, sShort: int, sLong: int): seq<(int, int)>
    requires 0 <= i <= |bits|
    decreases |bits| - i
  {
    if i == |bits| then []
    else
      if bits[i] != 1 then EncodeFrom(bits, i + 1, sShort, sLong)
      else
        var cnt1 := Run(bits, i, 1);
        var cnt0 := Run(bits, i + cnt1, 0);
        [(cnt1, Gap(cnt0, sShort, sLong))] + EncodeFrom(bits, i + cnt1 + cnt0, sShort, sLong)
  }

  /** `encode_pcm_signal(bits, s_short, s_long)`. */
  function EncodeEvents(bits: seq<int>, sShort: int, sLong: int): seq<(int, int)> {
    EncodeFrom(bits, 0, sShort, sLong)
  }

  /** `PCMEncoder(short, long)`: the widths are stored but neither method
      reads them. */
  datatype PcmEncoder = PcmEncoder(short: int, long: int) {
    function DecodePcmSignal(pulses: seq<(int, int)>): seq<int> {
      DecodePulses(pulses)
    }
  }

  /** `PCMEncoder()` with its default widths. */
  const DefaultEncoder := PcmEncoder(1, 1)

  // ---------------------------------------------------------------------
  // The loops of `encode_pcm_signal`.

  /** The count is the longest run: `k` elements equal to `v` followed by
      the end or a different element give a count of `k`. */
  lemma {:induction false} RunIs(bits: seq<int>, i: int, v: int, k: nat)
    requires 0 <= i && i + k <= |bits| && (forall j :: i <= j < i + k ==> bits[j] == v)
    requires i + k == |bits| || bits[i + k] != v
    ensures Run(bits, i, v) == k
    decreases k
  {
    if k > 0 {
      RunIs(bits, i + 1, v, k - 1);
    }
  }

  /** Conversely, the counted elements all equal `v` and the element after
      them, if any, does not. */
  lemma {:induction false} RunSpans(bits: seq<int>, i: int, v: int)
    requires 0 <= i <= |bits|
    ensures forall j :: i <= j < i + Run(bits, i, v) ==> bits[j] == v
    ensures i + Run(bits, i, v) == |bits| || bits[i + Run(bits, i, v)] != v
    decreases |bits| - i
  {
    if i < |bits| && bits[i] == v {
      RunSpans(bits, i + 1, v);
    }
  }

  /** A maximal run of `c1 >= 1` ones at `i` followed by a maximal run of
      `c0` zeros is one event. */
  lemma EventStep(bits: seq<int>, i: int, c1: int, c0: int, sShort: int, sLong: int)
    requires 0 <= i && 1 <= c1 && 0 <= c0 && i + c1 + c0 <= |bits|
    requires forall j :: i <= j < i + c1 ==> bits[j] == 1
    requires i + c1 == |bits| || bits[i + c1] != 1
    requires forall j :: i + c1 <= j < i + c1 + c0 ==> bits[j] == 0
    requires i + c1 + c0 == |bits| || bits[i + c1 + c0] != 0
    ensures EncodeFrom(bits, i, sShort, sLong)
      == [(c1, Gap(c0, sShort, sLong))] + EncodeFrom(bits, i + c1 + c0, sShort, sLong)
  {
    assert bits[i] == 1;
    RunIs(bits, i, 1, c1);
    RunIs(bits, i + c1, 0, c0);
    EventUnfold(bits, i, c1, c0, sShort, sLong);
  }

  /** One turn of the outer loop at a 1: the event of the two runs, then
      the events after them. */
  lemma EventUnfold(bits: seq<int>, i: int, c1: int, c0: int, sShort: int, sLong: int)
    requires 0 <= i < |bits| && bits[i] == 1
    requires c1 == Run(bits, i, 1) && c0 == Run(bits, i + c1, 0)
    ensures EncodeFrom(bits, i, sShort, sLong) == [(c1, Gap(c0, sShort, sLong))] + EncodeFrom(bits, i + c1 + c0, sShort, sLong)
  {
  }

  /** The loops of `encode_pcm_signal` compute `EncodeEvents`. */
  method EncodePcmSignal(bits: seq<int>, sShort: int, sLong: int) returns (r: seq<(int, int)>)
    ensures r == EncodeEvents(bits, sShort, sLong)
  {
    var pulses: seq<(int, int)> := [];
    var i := 0;
    var n := |bits|;
    while i < n
      invariant 0 <= i <= n
      invariant pulses + EncodeFrom(bits, i, sShort, sLong) == EncodeEvents(bits, sShort, sLong)
      decreases n - i
    {
      var i0 := i;
      var cnt1 := 0;
      while i < n && bits[i] == 1
        invariant i0 <= i <= n && cnt1 == i - i0
        invariant Run(bits, i0, 1) == cnt1 + Run(bits, i, 1)
        decreases n - i
      {
        cnt1 := cnt1 + 1;
        i := i + 1;
      }
      if cnt1 == 0 {
        i := i + 1;
        continue;
      }
      var i1 := i;
      var cnt0 := 0;
      while i < n && bits[i] == 0
        invariant i1 <= i <= n && cnt0 == i - i1
        invariant Run(bits, i1, 0) == cnt0 + Run(bits, i, 0)
        decreases n - i
      {
        cnt0 := cnt0 + 1;
        i := i + 1;
      }
      var gap := if cnt0 > 0 then cnt0 - (sShort - sLong) else 0;
      assert EncodeFrom(bits, i0, sShort, sLong) == [(cnt1, gap)] + EncodeFrom(bits, i, sShort, sLong);
      assert pulses + [(cnt1, gap)] + EncodeFrom(bits, i, sShort, sLong)
        == pulses + ([(cnt1, gap)] + EncodeFrom(bits, i, sShort, sLong));
      pulses := pulses + [(cnt1, gap)];
    }
    r := pulses;
  }

  // ---------------------------------------------------------------------
  // Decoding.

  lemma {:induction false} DecodeAppend(p: seq<(int, int)>, q: seq<(int, int)>)
    ensures DecodePulses(p + q) == DecodePulses(p) + DecodePulses(q)
    decreases |p|
  {
    if p == [] {
      assert p + q == q;
    } else {
      assert (p + q)[0] == p[0] && (p + q)[1..] == p[1..] + q;
      DecodeAppend(p[1..], q);
      var (pulse, gap) := p[0];
      var head := Repeat(1, pulse) + Repeat(0, gap);
      assert head + (DecodePulses(p[1..]) + DecodePulses(q)) == (head + DecodePulses(p[1..])) + DecodePulses(q);
    }
  }

  lemma DecodeCons(p: (int, int), q: seq<(int, int)>)
    ensures DecodePulses([p] + q) == Repeat(1, p.0) + Repeat(0, p.1) + DecodePulses(q)
  {
    assert ([p] + q)[0] == p && ([p] + q)[1..] == q;
  }

  function Width(n: int): nat {
    if n > 0 then n else 0
  }

  /** The number of bits a pulse list decodes to. */
  function Total(pulses: seq<(int, int)>): nat
    decreases |pulses|
  {
    if pulses == [] then 0 else Width(pulses[0].0) + Width(pulses[0].1) + Total(pulses[1..])
  }

  /** Decoding yields only ones and zeros, as many as the positive widths
      add up to. */
  lemma {:induction false} DecodeShape(pulses: seq<(int, int)>)
    ensures |DecodePulses(pulses)| == Total(pulses)
    ensures forall i :: 0 <= i < |DecodePulses(pulses)| ==> DecodePulses(pulses)[i] in {0, 1}
    decreases |pulses|
  {
    if pulses != [] {
      DecodeShape(pulses[1..]);
    }
  }

  // ---------------------------------------------------------------------
  // Encoding.

  /** Element `j` is a 0 or a 1. */
  predicate BitAt(bits: seq<int>, j: int)
    requires 0 <= j < |bits|
  {
    bits[j] == 0 || bits[j] == 1
  }

  predicate IsBits(bits: seq<int>) {
    forall j :: 0 <= j < |bits| ==> BitAt(bits, j)
  }

  /** The input without its leading zeros. */
  function DropZeros(bits: seq<int>): (r: seq<int>)
    ensures |r| <= |bits|
    decreases |bits|
  {
    if bits != [] && bits[0] == 0 then DropZeros(bits[1..]) else bits
  }

  /** One event of a 0/1 list at a 1: the list from there is the run of
      ones, the run of zeros and a rest that is empty or starts with 1; an
      empty run of zeros means nothing follows. */
  lemma EventSplit(bits: seq<int>, i: int, c1: int, c0: int)
    requires IsBits(bits) && 0 <= i < |bits| && bits[i] == 1
    requires c1 == Run(bits, i, 1) && c0 == Run(bits, i + c1, 0)
    ensures c1 >= 1
    ensures bits[i..] == Repeat(1, c1) + Repeat(0, c0) + bits[i + c1 + c0..]
    ensures i + c1 + c0 == |bits| || bits[i + c1 + c0] == 1
    ensures c0 == 0 ==> i + c1 + c0 == |bits|
  {
    var k := i + c1 + c0;
    assert bits[i..i + c1] == Repeat(1, c1) && (i + c1 == |bits| || bits[i + c1] != 1) by {
      RunSpans(bits, i, 1);
      ConstSlice(bits, i, i + c1, 1);
    }
    assert bits[i + c1..k] == Repeat(0, c0) && (k == |bits| || bits[k] != 0) by {
      RunSpans(bits, i + c1, 0);
      ConstSlice(bits, i + c1, k, 0);
    }
    if i + c1 < |bits| {
      assert BitAt(bits, i + c1);
    }
    if k < |bits| {
      assert BitAt(bits, k);
    }
    Cut3(bits, i, i + c1, k);
  }

  /** A suffix cut at two points. */
  lemma Cut3(s: seq<int>, a: int, b: int, c: int)
    requires 0 <= a <= b <= c <= |s|
    ensures s[a..] == s[a..b] + s[b..c] + s[c..]
  {
    assert s[a..] == s[a..b] + s[b..];
    assert s[b..] == s[b..c] + s[c..];
  }

  /** A slice whose elements all equal `v` is a repetition of `v`. */
  lemma ConstSlice(bits: seq<int>, a: int, b: int, v: int)
    requires 0 <= a <= b <= |bits|
    requires forall j :: a <= j < b ==> bits[j] == v
    ensures bits[a..b] == Repeat(v, b - a)
  {
    assert forall j :: 0 <= j < b - a ==> bits[a..b][j] == bits[a + j];
  }

  /** Round trip: with equal short and long widths, decoding the encoding
      from `i` of a 0/1 list gives the list from `i` back without its
      leading zeros, which have no pulse to attach to. */
  lemma {:induction false} RoundTripFrom(bits: seq<int>, i: int, s: int)
    requires IsBits(bits) && 0 <= i <= |bits|
    ensures DecodePulses(EncodeFrom(bits, i, s, s)) == DropZeros(bits[i..])
    decreases |bits| - i
  {
    if i < |bits| {
      assert BitAt(bits, i);
      if bits[i] == 0 {
        RoundTripFrom(bits, i + 1, s);
        ZeroStep(bits, i, s);
      } else {
        var c1 := Run(bits, i, 1);
        var c0 := Run(bits, i + c1, 0);
        RoundTripFrom(bits, i + c1 + c0, s);
        EventRoundTrip(bits, i, c1, c0, s);
      }
    } else {
      assert bits[i..] == [];
    }
  }

  /** A 0 outside any event is skipped by the encoder and dropped before
      the first 1. */
  lemma ZeroStep(bits: seq<int>, i: int, s: int)
    requires 0 <= i < |bits| && bits[i] == 0
    ensures EncodeFrom(bits, i, s, s) == EncodeFrom(bits, i + 1, s, s)
    ensures DropZeros(bits[i..]) == DropZeros(bits[i + 1..])
  {
    assert bits[i..][1..] == bits[i + 1..];
  }

  /** Decoding the events from a run of ones gives the two runs back in
      front of what the later events decode to, when the widths agree. */
  lemma DecodeEvent(bits: seq<int>, i: int, c1: int, c0: int, s: int)
    requires 0 <= i < |bits| && bits[i] == 1
    requires c1 == Run(bits, i, 1) && c0 == Run(bits, i + c1, 0)
    ensures DecodePulses(EncodeFrom(bits, i, s, s))
      == Repeat(1, c1) + Repeat(0, c0) + DecodePulses(EncodeFrom(bits, i + c1 + c0, s, s))
  {
    var tail := EncodeFrom(bits, i + c1 + c0, s, s);
    EventUnfold(bits, i, c1, c0, s, s);
    DecodeCons((c1, Gap(c0, s, s)), tail);
    assert Repeat(0, Gap(c0, s, s)) == Repeat(0, c0);
  }

  /** The step of the round trip at a run of ones: if the later events
      decode to the rest of the list without its leading zeros, the events
      from `i` decode to the list from `i`. */
  lemma EventRoundTrip(bits: seq<int>, i: int, c1: int, c0: int, s: int)
    requires IsBits(bits) && 0 <= i < |bits| && bits[i] == 1
    requires c1 == Run(bits, i, 1) && c0 == Run(bits, i + c1, 0)
    requires DecodePulses(EncodeFrom(bits, i + c1 + c0, s, s)) == DropZeros(bits[i + c1 + c0..])
    ensures DecodePulses(EncodeFrom(bits, i, s, s)) == DropZeros(bits[i..])
  {
    var k := i + c1 + c0;
    EventSplit(bits, i, c1, c0);
    DecodeEvent(bits, i, c1, c0, s);
    assert DropZeros(bits[k..]) == bits[k..];
    assert DropZeros(bits[i..]) == bits[i..];
  }

  lemma RoundTrip(bits: seq<int>, s: int)
    requires IsBits(bits)
    ensures DecodePulses(EncodeEvents(bits, s, s)) == DropZeros(bits)
  {
    RoundTripFrom(bits, 0, s);
    assert bits[0..] == bits;
  }

  /** Every gap is the zero count shifted by `s_long - s_short`, except that
      a missing run of zeros always gives gap 0. */
  function AdjustGaps(pulses: seq<(int, int)>, d: int): (r: seq<(int, int)>)
    ensures |r| == |pulses|
    ensures forall i :: 0 <= i < |r| ==> r[i].0 == pulses[i].0
  {
    seq(|pulses|, i requires 0 <= i < |pulses| =>
      (pulses[i].0, if pulses[i].1 > 0 then pulses[i].1 - d else 0))
  }

  /** The widths only move the gaps: encoding with `s_short`, `s_long` is the
      plain run-length encoding with each positive gap reduced by
      `s_short - s_long`. */
  lemma {:induction false} EncodeAdjustsFrom(bits: seq<int>, i: int, sShort: int, sLong: int)
    requires 0 <= i <= |bits|
    ensures EncodeFrom(bits, i, sShort, sLong) == AdjustGaps(EncodeFrom(bits, i, 0, 0), sShort - sLong)
    decreases |bits| - i
  {
    if i < |bits| {
      if bits[i] != 1 {
        EncodeAdjustsFrom(bits, i + 1, sShort, sLong);
      } else {
        var c1 := Run(bits, i, 1);
        var c0 := Run(bits, i + c1, 0);
        var k := i + c1 + c0;
        EncodeAdjustsFrom(bits, k, sShort, sLong);
        var rest := EncodeFrom(bits, k, 0, 0);
        assert EncodeFrom(bits, i, 0, 0) == [(c1, Gap(c0, 0, 0))] + rest;
        assert AdjustGaps([(c1, Gap(c0, 0, 0))] + rest, sShort - sLong)
          == [(c1, Gap(c0, sShort, sLong))] + AdjustGaps(rest, sShort - sLong);
      }
    }
  }

  lemma EncodeAdjusts(bits: seq<int>, sShort: int, sLong: int)
    ensures EncodeEvents(bits, sShort, sLong) == AdjustGaps(EncodeEvents(bits, 0, 0), sShort - sLong)
  {
    EncodeAdjustsFrom(bits, 0, sShort, sLong);
  }

  /** Every pulse is at least one bit long. */
  lemma {:induction false} PulsesPositive(bits: seq<int>, i: int, sShort: int, sLong: int)
    requires 0 <= i <= |bits|
    ensures forall j :: 0 <= j < |EncodeFrom(bits, i, sShort, sLong)| ==> EncodeFrom(bits, i, sShort, sLong)[j].0 >= 1
    decreases |bits| - i
  {
    if i < |bits| {
      if bits[i] != 1 {
        PulsesPositive(bits, i + 1, sShort, sLong);
      } else {
        var c1 := Run(bits, i, 1);
        PulsesPositive(bits, i + c1 + Run(bits, i + c1, 0), sShort, sLong);
      }
    }
  }

  /** On a 0/1 list every gap but the last counts at least one zero. */
  lemma {:induction false} InnerGapsPositive(bits: seq<int>, i: int)
    requires IsBits(bits) && 0 <= i <= |bits|
    ensures forall j :: 0 <= j < |EncodeFrom(bits, i, 0, 0)| - 1 ==> EncodeFrom(bits, i, 0, 0)[j].1 >= 1
    decreases |bits| - i
  {
    if i < |bits| {
      assert BitAt(bits, i);
      if bits[i] == 0 {
        InnerGapsPositive(bits, i + 1);
      } else {
        var c1 := Run(bits, i, 1);
        var c0 := Run(bits, i + c1, 0);
        var k := i + c1 + c0;
        EventSplit(bits, i, c1, c0);
        InnerGapsPositive(bits, k);
        var r := EncodeFrom(bits, i, 0, 0);
        var tail := EncodeFrom(bits, k, 0, 0);
        assert r == [(c1, Gap(c0, 0, 0))] + tail;
        if k < |bits| {
          assert c0 >= 1;
          forall j | 0 <= j < |r| - 1
            ensures r[j].1 >= 1
          {
            if j > 0 {
              assert r[j] == tail[j - 1];
            }
          }
        }
      }
    }
  }

  /** There are no events from `i` exactly when no 1 follows. */
  lemma {:induction false} NoEventsIffNoOnes(bits: seq<int>, i: int)
    requires 0 <= i <= |bits|
    ensures EncodeFrom(bits, i, 0, 0) == [] <==> forall j :: i <= j < |bits| ==> bits[j] != 1
    decreases |bits| - i
  {
    if i < |bits| && bits[i] != 1 {
      NoEventsIffNoOnes(bits, i + 1);
    }
  }

  /** On a 0/1 list the last gap is 0 exactly when the list ends in 1. */
  lemma {:induction false} LastGapFrom(bits: seq<int>, i: int)
    requires IsBits(bits) && 0 <= i <= |bits|
    ensures var r := EncodeFrom(bits, i, 0, 0);
      r != [] ==> (r[|r| - 1].1 == 0 <==> bits[|bits| - 1] == 1)
    decreases |bits| - i
  {
    if i < |bits| {
      assert BitAt(bits, i);
      if bits[i] == 0 {
        LastGapFrom(bits, i + 1);
      } else {
        var c1 := Run(bits, i, 1);
        var c0 := Run(bits, i + c1, 0);
        var k := i + c1 + c0;
        EventSplit(bits, i, c1, c0);
        var r := EncodeFrom(bits, i, 0, 0);
        var tail := EncodeFrom(bits, k, 0, 0);
        assert r == [(c1, Gap(c0, 0, 0))] + tail;
        if k == |bits| {
          assert tail == [];
          assert bits[|bits| - 1] == bits[i..][|bits| - 1 - i];
          if c0 == 0 {
            assert bits[i..] == Repeat(1, c1) + Repeat(0, c0);
          }
        } else {
          NoEventsIffNoOnes(bits, k);
          LastGapFrom(bits, k);
          assert r[|r| - 1] == tail[|tail| - 1];
        }
      }
    }
  }

  lemma LastGap(bits: seq<int>)
    requires IsBits(bits)
    ensures var r := EncodeEvents(bits, 0, 0);
      r != [] ==> (r[|r| - 1].1 == 0 <==> bits[|bits| - 1] == 1)
  {
    LastGapFrom(bits, 0);
  }
}
