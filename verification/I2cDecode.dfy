/**
 I2C decoded from two channels' codes: both sliced, their edges walked merged in
 time, or their levels sample by sample with the spikes taken off.
 */
module I2cDecode {
  import opened Basics
  import opened Edges
  import opened Slicer
  import opened I2c
  import opened I2cDeglitch

  /** A channel: its codes, and the threshold and swing they are sliced by. */
  datatype Channel = Channel(codes: seq<byte>, threshold: real, amp: real) {
    function Slice(): Slicer.Slice {
      Slicer.Slice(threshold, 0.2 * amp / 2.0)
    }

    function Bit(k: nat): bit
      requires k < |codes|
    {
      if codes[k] as real >= threshold then 1 else 0
    }
  }

  /** Both lines at each sample the two records share: the Schmitt trigger's levels. */
  function Samples(scl: Channel, sda: Channel): (w: seq<Sample>) {
    seq(Min(|scl.codes|, |sda.codes|), k requires 0 <= k < Min(|scl.codes|, |sda.codes|) =>
      Sample(scl.Slice().Level(scl.codes, k), sda.Slice().Level(sda.codes, k), sda.Bit(k)))
  }

  /** The same with each line's spikes under g samples taken off. */
  ghost function CleanSamples(scl: Channel, sda: Channel, g: int): (w: seq<Sample>) {
    var c := seq(|scl.codes|, k requires 0 <= k < |scl.codes| => scl.Slice().Level(scl.codes, k));
    var d := seq(|sda.codes|, k requires 0 <= k < |sda.codes| => sda.Slice().Level(sda.codes, k));
    seq(Min(|scl.codes|, |sda.codes|), k requires 0 <= k < Min(|scl.codes|, |sda.codes|) =>
      Sample(Cleaned(c, g, k), Cleaned(d, g, k), sda.Bit(k)))
  }

  /** A sample is SCL's trigger level, SDA's, and whether SDA's code is at its threshold or over. */
  lemma SampleIs(scl: Channel, sda: Channel, k: nat)
    requires k < |scl.codes| && k < |sda.codes|
    ensures |Samples(scl, sda)| == if |scl.codes| <= |sda.codes| then |scl.codes| else |sda.codes|
    ensures var s := Samples(scl, sda)[k];
            && s.cl == Slice(scl.threshold, 0.2 * scl.amp / 2.0).Level(scl.codes, k)
            && s.da == Slice(sda.threshold, 0.2 * sda.amp / 2.0).Level(sda.codes, k)
            && (s.raw == 1 <==> sda.codes[k] as real >= sda.threshold)
  {
    hide Slice.Level;
  }

  /** The same with the spikes of those levels taken off. */
  lemma CleanSampleIs(scl: Channel, sda: Channel, g: int, c: seq<bit>, d: seq<bit>, k: nat)
    requires k < |scl.codes| == |c| && k < |sda.codes| == |d|
    requires forall j :: 0 <= j < |c| ==> c[j] == Slice(scl.threshold, 0.2 * scl.amp / 2.0).Level(scl.codes, j)
    requires forall j :: 0 <= j < |d| ==> d[j] == Slice(sda.threshold, 0.2 * sda.amp / 2.0).Level(sda.codes, j)
    ensures |CleanSamples(scl, sda, g)| == if |c| <= |d| then |c| else |d|
    ensures CleanSamples(scl, sda, g)[k].cl == Cleaned(c, g, k) && CleanSamples(scl, sda, g)[k].da == Cleaned(d, g, k)
    ensures CleanSamples(scl, sda, g)[k].raw == 1 <==> sda.codes[k] as real >= sda.threshold
  {
    hide Cleaned, Slice.Level;
    assert c == seq(|scl.codes|, j requires 0 <= j < |scl.codes| => scl.Slice().Level(scl.codes, j));
    assert d == seq(|sda.codes|, j requires 0 <= j < |sda.codes| => sda.Slice().Level(sda.codes, j));
  }

  /** A transfer still open at the record's end is marked there. */
  function Spans(s: State, n: nat): seq<Span> {
    if s.core.inTxn then s.spans + [Span(n as int - 1, n as int - 1, NoStop, 0)] else s.spans
  }

  /** The mark of a transfer still open is the last, at the last sample, and there is none else. */
  lemma OpenTransferIsMarked(s: State, n: nat)
    ensures s.core.inTxn ==> Spans(s, n) == s.spans + [Span(n as int - 1, n as int - 1, NoStop, 0)]
    ensures !s.core.inTxn ==> Spans(s, n) == s.spans
  {
  }

  method Decode(scl: Channel, sda: Channel) returns (spans: seq<Span>, toks: seq<Token>, bytes: seq<nat>)
    requires scl.amp >= 20.0 && sda.amp >= 20.0
    ensures var s := Walk(Samples(scl, sda));
            spans == Spans(s, |Samples(scl, sda)|) && toks == s.core.toks && bytes == s.core.bytes
  {
    hide Walk, Slice.Level, Line.At, Rising, Alternating;
    var cl := SliceChannel(scl.codes, scl.threshold, scl.amp);
    var da := SliceChannel(sda.codes, sda.threshold, sda.amp);
    var n := Min(|scl.codes|, |sda.codes|);
    var raw := seq(n, k requires 0 <= k < n => sda.Bit(k));
    var d := new Decoder();
    d.WalkEdges(n, cl, da, raw);
    assert Rebuilt(cl, da, raw) == Samples(scl, sda);
    spans, toks, bytes := d.spans, d.toks, d.bytes;
    if d.inTxn {
      spans := spans + [Span(n - 1, n - 1, NoStop, 0)];
    }
  }

  method DecodeClean(scl: Channel, sda: Channel, g: int) returns (spans: seq<Span>, toks: seq<Token>, bytes: seq<nat>)
    requires scl.amp >= 20.0 && sda.amp >= 20.0
    ensures var s := Walk(CleanSamples(scl, sda, g));
            spans == Spans(s, |CleanSamples(scl, sda, g)|) && toks == s.core.toks && bytes == s.core.bytes
  {
    hide Walk, Slice.Level, Cleaned;
    var cl := CleanLevels(scl, g);
    var da := CleanLevels(sda, g);
    var n := Min(|scl.codes|, |sda.codes|);
    var w := seq(n, k requires 0 <= k < n => Sample(cl[k], da[k], sda.Bit(k)));
    assert w == CleanSamples(scl, sda, g);
    var d := new Decoder();
    d.WalkSamples(w);
    spans, toks, bytes := d.spans, d.toks, d.bytes;
    if d.inTxn {
      spans := spans + [Span(n - 1, n - 1, NoStop, 0)];
    }
  }

  method CleanLevels(c: Channel, g: int) returns (level: seq<bit>)
    requires c.amp >= 20.0
    ensures |level| == |c.codes|
    ensures var raw := seq(|c.codes|, k requires 0 <= k < |c.codes| => c.Slice().Level(c.codes, k));
            forall k :: 0 <= k < |c.codes| ==> level[k] == Cleaned(raw, g, k)
  {
    hide Slice.Level, Cleaned;
    var a := SliceAndRead(c.codes, c.threshold, c.amp);
    ghost var raw := seq(|c.codes|, k requires 0 <= k < |c.codes| => c.Slice().Level(c.codes, k));
    assert a[..] == raw;
    Deglitch(a, g);
    return a[..];
  }
}
