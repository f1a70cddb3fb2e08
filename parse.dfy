/** `parse_yaml_model`: one forward pass over backbone + head that grows the
  * channel table `ch` and the list of layer records, then a second pass over
  * the records that derives the edges.
  *
  * The pass is specified by `Interpret`, a function over the prefix of the
  * entry list seen so far; the method `ParseYamlModel` runs the loops of the
  * source and is proved to compute the same thing. */
module Parse {
  import opened Utils
  import opened Scale

  // ---------------------------------------------------------------------
  // Data model
  // ---------------------------------------------------------------------

  /** One element of a layer's `from` field: an integer, or text that is
    * coerced with `int(...)`. */
  datatype Src = Index(i: int) | Text(t: string)

  /** The `from` field: a single integer, or a list of sources. */
  datatype From = Single(i: int) | Many(srcs: seq<Src>)

  /** A repeat count or an argument, after literal evaluation. */
  datatype Value = Int(i: int) | Str(s: string) | Other

  /** The four items `[from, repeats, module, args]` of a layer entry. */
  datatype LayerSpec = LayerSpec(from: From, repeat: Value, moduleName: string, args: seq<Value>)

  /** An element of the concatenated backbone + head list. */
  datatype Entry =
    | Skipped               // not a list, or a list of fewer than four items
    | Layer(spec: LayerSpec) // a list of exactly four items
    | Overlong              // a list of more than four items

  datatype Group = Backbone | Head

  /** The lines of a node label, before they are joined into text. */
  datatype LabelLine =
    | Name(text: string)
    | Channels(cin: int, cout: int)
    | Repeats(n: int)
    | ArgList(args: seq<Value>)

  /** The record appended to `layers`: `idx` is the position in the
    * concatenated list, `kind` is `str(m)`, the colour key. */
  datatype LayerRecord = LayerRecord(idx: nat, group: Group, from: seq<Src>, labelLines: seq<LabelLine>, kind: string)

  /** The parsed configuration. A missing multiplier is None; a missing or
    * empty `backbone`/`head` is the empty list. */
  datatype Config = Config(
    depthMultiple: Option<Rational>,
    widthMultiple: Option<Rational>,
    backbone: seq<Entry>,
    head: seq<Entry>)

  datatype Multipliers = Multipliers(gd: Rational, gw: Rational)

  /** `f, n, m, args = entry` on a list of more than four items. */
  datatype ParseError = TooManyValuesToUnpack

  /** The state of the first pass: the channel table and the records. */
  datatype Table = Table(ch: seq<int>, layers: seq<LayerRecord>)

  /** What `parse_yaml_model` returns. */
  datatype Parsed = Parsed(layers: seq<LayerRecord>, edges: seq<(int, int)>, backboneLen: nat)

  /** Placeholder source of an edge that has no valid predecessor. */
  const NoPredecessor: int := -999

  function MultipliersOf(d: Config): Multipliers
  {
    Multipliers(
      if d.depthMultiple.Some? then d.depthMultiple.value else UnitRatio,
      if d.widthMultiple.Some? then d.widthMultiple.value else UnitRatio)
  }

  // ---------------------------------------------------------------------
  // Per-entry rules
  // ---------------------------------------------------------------------

  function Sources(f: From): seq<Src>
  {
    match f
    case Single(i) => [Index(i)]
    case Many(srcs) => srcs
  }

  /** `int(src)`, with -1 when the text is not a number. */
  function SourceIndex(src: Src): int
  {
    match src
    case Index(i) => i
    case Text(t) => if ParseInt(t).Some? then ParseInt(t).value else -1
  }

  /** `int(n)`, with 1 when the value cannot be coerced. */
  function RepeatCount(v: Value): int
  {
    match v
    case Int(i) => i
    case Str(s) => if ParseInt(s).Some? then ParseInt(s).value else 1
    case Other => 1
  }

  /** The input channel count of one source: -1 is the last table entry,
    * any other s is slot s + 1 when it exists and the last entry otherwise.
    * The result is always a channel count already in the table. */
  function ResolveSource(ch: seq<int>, src: Src): (c: int)
    requires |ch| > 0
    ensures c in ch
  {
    var s := SourceIndex(src);
    if s == -1 then ch[|ch| - 1]
    else if 0 <= s + 1 < |ch| then ch[s + 1]
    else ch[|ch| - 1]
  }

  /** `c1s`: one resolved channel count per source. */
  function InputChannels(ch: seq<int>, srcs: seq<Src>): seq<int>
    requires |ch| > 0
  {
    seq(|srcs|, k requires 0 <= k < |srcs| => ResolveSource(ch, srcs[k]))
  }

  function Sum(xs: seq<int>): int
    decreases |xs|
  {
    if xs == [] then 0 else Sum(xs[..|xs| - 1]) + xs[|xs| - 1]
  }

  predicate IsConcat(mname: string)
  {
    Contains(mname, "concat")
  }

  predicate IsDetect(mname: string)
  {
    Contains(mname, "detect")
  }

  /** The unscaled output count of a non-concat module: the first argument
    * when it is an integer, else the first input count, else 0. */
  function BaseChannels(args: seq<Value>, c1s: seq<int>): int
  {
    if |args| > 0 && args[0].Int? then args[0].i
    else if |c1s| > 0 then c1s[0]
    else 0
  }

  /** `c2`, the output channel count of a layer. Every module that is
    * neither a concat nor a detect gets a multiple of 8. */
  function OutputChannels(mname: string, args: seq<Value>, c1s: seq<int>, gw: Rational): (c2: int)
    ensures !IsConcat(mname) && !IsDetect(mname) ==> c2 % ChannelDivisor == 0
    ensures !IsConcat(mname) && !IsDetect(mname) ==>
      var b := BaseChannels(args, c1s);
      b * gw.num <= c2 * gw.den < b * gw.num + ChannelDivisor * gw.den
  {
    if IsConcat(mname) then Sum(c1s)
    else
      var base := BaseChannels(args, c1s);
      if IsDetect(mname) then base else ScaledWidth(base, gw)
  }

  /** Concat and detect outputs do not depend on the width multiple: a concat
    * is the sum of its inputs, a detect keeps its base count. */
  lemma OutputChannelsIgnoreWidth(mname: string, args: seq<Value>, c1s: seq<int>, gw1: Rational, gw2: Rational)
    requires IsConcat(mname) || IsDetect(mname)
    ensures OutputChannels(mname, args, c1s, gw1) == OutputChannels(mname, args, c1s, gw2)
    ensures IsConcat(mname) ==> OutputChannels(mname, args, c1s, gw1) == Sum(c1s)
    ensures !IsConcat(mname) ==> OutputChannels(mname, args, c1s, gw1) == BaseChannels(args, c1s)
  {
  }

  /** With the default width multiple of 1, a plain module's count is its
    * base count rounded up to the next multiple of 8. */
  lemma OutputChannelsUnitWidth(mname: string, args: seq<Value>, c1s: seq<int>)
    requires !IsConcat(mname) && !IsDetect(mname)
    ensures var c2 := OutputChannels(mname, args, c1s, UnitRatio);
      BaseChannels(args, c1s) <= c2 < BaseChannels(args, c1s) + ChannelDivisor
  {
    var b := BaseChannels(args, c1s);
    ScaledWidthUnit(b, b + (ChannelDivisor - b % ChannelDivisor));
  }

  /** The label lines: three for a detect (name, repeats, arguments); for any
    * other module name, channel arrow and repeats, plus the arguments when
    * there are any. */
  function Label(name: string, mname: string, c1s: seq<int>, c2: int, n: int, args: seq<Value>): (lines: seq<LabelLine>)
    ensures |lines| == (if IsDetect(mname) || args == [] then 3 else 4)
    ensures lines[0] == Name(name)
    ensures Repeats(n) in lines
    ensures !IsDetect(mname) ==> lines[1] == Channels(Sum(c1s), c2)
    ensures IsDetect(mname) ==> lines[1] == Repeats(n) && lines[2] == ArgList(args)
    ensures !IsDetect(mname) ==> lines[2] == Repeats(n) && (args != [] ==> lines[3] == ArgList(args))
  {
    if IsDetect(mname) then [Name(name), Repeats(n), ArgList(args)]
    else [Name(name), Channels(Sum(c1s), c2), Repeats(n)] + (if args != [] then [ArgList(args)] else [])
  }

  /** The output channel count the layer appends to the table. */
  function LayerOutput(ch: seq<int>, spec: LayerSpec, gw: Rational): int
    requires |ch| > 0
  {
    OutputChannels(ModuleNameLower(spec.moduleName), spec.args, InputChannels(ch, Sources(spec.from)), gw)
  }

  /** The record built for the accepted entry at position i. */
  function MakeRecord(i: nat, backboneLen: nat, spec: LayerSpec, ch: seq<int>, m: Multipliers): LayerRecord
    requires |ch| > 0
  {
    var mname := ModuleNameLower(spec.moduleName);
    var c1s := InputChannels(ch, Sources(spec.from));
    var c2 := OutputChannels(mname, spec.args, c1s, m.gw);
    var n := ScaledRepeat(RepeatCount(spec.repeat), m.gd);
    LayerRecord(
      i,
      if i < backboneLen then Backbone else Head,
      Sources(spec.from),
      Label(spec.moduleName, mname, c1s, c2, n, spec.args),
      spec.moduleName)
  }

  /** One iteration of the first pass, for the entry at position i. */
  function Step(t: Table, i: nat, e: Entry, backboneLen: nat, m: Multipliers): Result<Table, ParseError>
    requires |t.ch| > 0
  {
    match e
    case Skipped => Ok(t)
    case Overlong => Err(TooManyValuesToUnpack)
    case Layer(spec) =>
      Ok(Table(t.ch + [LayerOutput(t.ch, spec, m.gw)], t.layers + [MakeRecord(i, backboneLen, spec, t.ch, m)]))
  }

  /** The first pass over the entries `s`: the table starts as
    * `[inputChannels]`, and every accepted entry adds one record and one
    * table slot. */
  function Interpret(s: seq<Entry>, backboneLen: nat, m: Multipliers, inputChannels: int): (r: Result<Table, ParseError>)
    ensures r.Ok? ==> |r.value.ch| == |r.value.layers| + 1 && r.value.ch[0] == inputChannels
    decreases |s|
  {
    if s == [] then Ok(Table([inputChannels], []))
    else
      var prev := Interpret(s[..|s| - 1], backboneLen, m, inputChannels);
      if prev.Err? then prev else Step(prev.value, |s| - 1, s[|s| - 1], backboneLen, m)
  }

  /** Number of accepted (four-item) entries. */
  function CountLayers(s: seq<Entry>): nat
    decreases |s|
  {
    if s == [] then 0 else CountLayers(s[..|s| - 1]) + (if s[|s| - 1].Layer? then 1 else 0)
  }

  // ---------------------------------------------------------------------
  // Edge derivation
  // ---------------------------------------------------------------------

  /** The source the edge loop computes: -1 means the previous position,
    * and any negative result becomes the placeholder. */
  function RawSource(src: Src, dst: int): int
  {
    var si := SourceIndex(src);
    var s := if si == -1 then dst - 1 else si;
    if s < 0 then NoPredecessor else s
  }

  function RecordEdges(rec: LayerRecord): seq<(int, int)>
  {
    seq(|rec.from|, k requires 0 <= k < |rec.from| => (RawSource(rec.from[k], rec.idx), rec.idx))
  }

  /** The edge list before the placeholder is rewritten. */
  function AllEdges(ls: seq<LayerRecord>): seq<(int, int)>
    decreases |ls|
  {
    if ls == [] then [] else AllEdges(ls[..|ls| - 1]) + RecordEdges(ls[|ls| - 1])
  }

  /** The list comprehension that turns the placeholder into -1 (Input). */
  function Unsentinel(edges: seq<(int, int)>): seq<(int, int)>
  {
    seq(|edges|, k requires 0 <= k < |edges| =>
      if edges[k].0 == NoPredecessor then (-1, edges[k].1) else edges[k])
  }

  function DeriveEdges(ls: seq<LayerRecord>): seq<(int, int)>
  {
    Unsentinel(AllEdges(ls))
  }

  /** The final edge source in one step: -1 means the previous position, and
    * every negative result is the Input node -1. */
  function EdgeSource(src: Src, dst: int): (r: int)
    ensures r >= -1
    ensures SourceIndex(src) == -1 && dst >= 1 ==> r == dst - 1
    ensures SourceIndex(src) >= 0 ==> r == SourceIndex(src)
    ensures SourceIndex(src) < -1 ==> r == -1
    ensures SourceIndex(src) == -1 && dst < 1 ==> r == -1
  {
    var si := SourceIndex(src);
    var s := if si == -1 then dst - 1 else si;
    if s < 0 then -1 else s
  }

  /** A text source that is not a number behaves as -1 everywhere: it reads
    * the last table entry and draws its edge from the previous position. */
  lemma TextSourceLikePrevious(ch: seq<int>, t: string, dst: int)
    requires |ch| > 0 && ParseInt(t).None?
    ensures ResolveSource(ch, Text(t)) == ResolveSource(ch, Index(-1)) == ch[|ch| - 1]
    ensures EdgeSource(Text(t), dst) == EdgeSource(Index(-1), dst)
    ensures RawSource(Text(t), dst) == RawSource(Index(-1), dst)
  {
  }

  /** A numeral source is the number it spells. */
  lemma TextSourceNumeral(n: int, dst: int)
    ensures SourceIndex(Text(ShowInt(n))) == n
    ensures EdgeSource(Text(ShowInt(n)), dst) == EdgeSource(Index(n), dst)
  {
    ParseShowRoundTrip(n);
  }

  /** `int(n)` on the repeat field: an integer is kept, a numeral is read,
    * and anything that cannot be coerced counts as one repeat. */
  lemma RepeatCountCoercion(n: int, t: string)
    ensures RepeatCount(Int(n)) == n
    ensures RepeatCount(Str(ShowInt(n))) == n
    ensures ParseInt(t).None? ==> RepeatCount(Str(t)) == 1
    ensures RepeatCount(Other) == 1
  {
    ParseShowRoundTrip(n);
  }

  /** Total number of sources over the records. */
  function SourceCount(ls: seq<LayerRecord>): nat
    decreases |ls|
  {
    if ls == [] then 0 else SourceCount(ls[..|ls| - 1]) + |ls[|ls| - 1].from|
  }

  /** The whole of `parse_yaml_model`, as a function. */
  function ParseModel(d: Config, inputChannels: int): Result<Parsed, ParseError>
  {
    var r := Interpret(d.backbone + d.head, |d.backbone|, MultipliersOf(d), inputChannels);
    if r.Err? then Err(r.error)
    else Ok(Parsed(r.value.layers, DeriveEdges(r.value.layers), |d.backbone|))
  }

  // ---------------------------------------------------------------------
  // The imperative passes
  // ---------------------------------------------------------------------

  /** The inner loop that builds `c1s`. */
  method ResolveInputs(ch: seq<int>, srcs: seq<Src>) returns (c1s: seq<int>)
    requires |ch| > 0
    ensures |c1s| == |srcs|
    ensures forall k :: 0 <= k < |srcs| ==> c1s[k] == ResolveSource(ch, srcs[k])
  {
    c1s := [];
    var k := 0;
    while k < |srcs|
      invariant 0 <= k <= |srcs|
      invariant |c1s| == k
      invariant forall j :: 0 <= j < k ==> c1s[j] == ResolveSource(ch, srcs[j])
    {
      var src := SourceIndex(srcs[k]);
      if src == -1 {
        c1s := c1s + [ch[|ch| - 1]];
      } else {
        var mapped := src + 1;
        c1s := c1s + [if 0 <= mapped < |ch| then ch[mapped] else ch[|ch| - 1]];
      }
      k := k + 1;
    }
  }

  /** The edge loop: one edge per (record, source) pair, in record order. */
  method CollectEdges(layers: seq<LayerRecord>) returns (edges: seq<(int, int)>)
    ensures edges == AllEdges(layers)
  {
    edges := [];
    var j := 0;
    while j < |layers|
      invariant 0 <= j <= |layers|
      invariant edges == AllEdges(layers[..j])
    {
      var node := layers[j];
      var dst := node.idx;
      var k := 0;
      while k < |node.from|
        invariant 0 <= k <= |node.from|
        invariant edges == AllEdges(layers[..j]) + RecordEdges(node)[..k]
      {
        var srcI := SourceIndex(node.from[k]);
        var srcIdx := if srcI == -1 then dst - 1 else srcI;
        if srcIdx < 0 {
          srcIdx := NoPredecessor;
        }
        edges := edges + [(srcIdx, dst)];
        k := k + 1;
      }
      assert RecordEdges(node)[..k] == RecordEdges(node);
      assert layers[..j + 1][..j] == layers[..j];
      j := j + 1;
    }
    assert layers[..j] == layers;
  }

  /** `parse_yaml_model(d, input_channels)`. */
  method ParseYamlModel(d: Config, inputChannels: int) returns (r: Result<Parsed, ParseError>)
    ensures r == ParseModel(d, inputChannels)
  {
    var m := MultipliersOf(d);
    var gd, gw := m.gd, m.gw;
    var all := d.backbone + d.head;
    var ch := [inputChannels];
    var layers: seq<LayerRecord> := [];
    var i := 0;
    while i < |all|
      invariant 0 <= i <= |all|
      invariant Interpret(all[..i], |d.backbone|, m, inputChannels) == Ok(Table(ch, layers))
    {
      assert all[..i + 1][..i] == all[..i];
      match all[i] {
        case Skipped =>
        case Overlong =>
          InterpretErrSticks(all, i + 1, |d.backbone|, m, inputChannels);
          assert all[..|all|] == all;
          r := Err(TooManyValuesToUnpack);
          return;
        case Layer(spec) =>
          var fromIdxs := Sources(spec.from);
          var n := RepeatCount(spec.repeat);
          var args := spec.args;
          var group := if i < |d.backbone| then Backbone else Head;
          var mname := ModuleNameLower(spec.moduleName);
          var c1s := ResolveInputs(ch, fromIdxs);
          assert c1s == InputChannels(ch, fromIdxs);
          var c2 := OutputChannels(mname, args, c1s, gw);
          var scaledN := ScaledRepeat(n, gd);
          var labelLines := Label(spec.moduleName, mname, c1s, c2, scaledN, args);
          layers := layers + [LayerRecord(i, group, fromIdxs, labelLines, spec.moduleName)];
          ch := ch + [c2];
      }
      i := i + 1;
    }
    assert all[..i] == all;
    var raw := CollectEdges(layers);
    r := Ok(Parsed(layers, Unsentinel(raw), |d.backbone|));
  }

  // ---------------------------------------------------------------------
  // Properties of the first pass
  // ---------------------------------------------------------------------

  /** Once the pass has failed on a prefix, the failure is the result. */
  lemma {:induction false} InterpretErrSticks(s: seq<Entry>, j: nat, backboneLen: nat, m: Multipliers, inputChannels: int)
    requires j <= |s| && Interpret(s[..j], backboneLen, m, inputChannels).Err?
    ensures Interpret(s, backboneLen, m, inputChannels) == Interpret(s[..j], backboneLen, m, inputChannels)
    decreases |s|
  {
    if j < |s| {
      var p := s[..|s| - 1];
      assert p[..j] == s[..j];
      InterpretErrSticks(p, j, backboneLen, m, inputChannels);
    } else {
      assert s[..j] == s;
    }
  }

  /** The pass fails exactly when some entry has more than four items. */
  lemma {:induction false} InterpretErrIff(s: seq<Entry>, backboneLen: nat, m: Multipliers, inputChannels: int)
    ensures Interpret(s, backboneLen, m, inputChannels).Err? <==> exists k :: 0 <= k < |s| && s[k].Overlong?
    decreases |s|
  {
    if s != [] {
      var p := s[..|s| - 1];
      InterpretErrIff(p, backboneLen, m, inputChannels);
      if exists k :: 0 <= k < |p| && p[k].Overlong? {
        var k :| 0 <= k < |p| && p[k].Overlong?;
        assert s[k].Overlong?;
      }
      if exists k :: 0 <= k < |s| && s[k].Overlong? {
        var k :| 0 <= k < |s| && s[k].Overlong?;
        if k < |p| {
          assert p[k].Overlong?;
        }
      }
    }
  }

  /** What the k-th record and the k-th computed table slot are: the record
    * comes from the k-th accepted entry, at position `idx`, and both were
    * computed from the table as it stood before that entry. */
  ghost predicate RecordMatches(s: seq<Entry>, backboneLen: nat, m: Multipliers, t: Table, k: nat)
    requires |t.ch| == |t.layers| + 1 && k < |t.layers|
  {
    var rec := t.layers[k];
    && k <= rec.idx < |s|
    && s[rec.idx].Layer?
    && CountLayers(s[..rec.idx]) == k
    && rec == MakeRecord(rec.idx, backboneLen, s[rec.idx].spec, t.ch[..k + 1], m)
    && t.ch[k + 1] == LayerOutput(t.ch[..k + 1], s[rec.idx].spec, m.gw)
  }

  lemma CountLayersBound(s: seq<Entry>)
    ensures CountLayers(s) <= |s|
  {
  }

  /** The channel table and the records, entry by entry: one record and one
    * slot per accepted entry, none for a skipped one, each computed from the
    * table as it stood before. */
  lemma {:induction false} InterpretRecords(s: seq<Entry>, backboneLen: nat, m: Multipliers, inputChannels: int)
    requires Interpret(s, backboneLen, m, inputChannels).Ok?
    ensures var t := Interpret(s, backboneLen, m, inputChannels).value;
      && |t.layers| == CountLayers(s)
      && forall k :: 0 <= k < |t.layers| ==> RecordMatches(s, backboneLen, m, t, k)
    decreases |s|
  {
    if s != [] {
      var p := s[..|s| - 1];
      var e := s[|s| - 1];
      InterpretRecords(p, backboneLen, m, inputChannels);
      var tp := Interpret(p, backboneLen, m, inputChannels).value;
      assert s == p + [e];
      assert Interpret(s, backboneLen, m, inputChannels) == Step(tp, |p|, e, backboneLen, m);
      StepRecords(p, e, backboneLen, m, tp);
    }
  }

  /** One step of the pass keeps every record matched and adds the record
    * of an accepted entry. */
  lemma StepRecords(p: seq<Entry>, e: Entry, backboneLen: nat, m: Multipliers, tp: Table)
    requires |tp.ch| == |tp.layers| + 1 && |tp.layers| == CountLayers(p)
    requires forall k :: 0 <= k < |tp.layers| ==> RecordMatches(p, backboneLen, m, tp, k)
    requires Step(tp, |p|, e, backboneLen, m).Ok?
    ensures var t := Step(tp, |p|, e, backboneLen, m).value;
      && |t.ch| == |t.layers| + 1
      && |t.layers| == CountLayers(p + [e])
      && forall k :: 0 <= k < |t.layers| ==> RecordMatches(p + [e], backboneLen, m, t, k)
  {
    var s := p + [e];
    var t := Step(tp, |p|, e, backboneLen, m).value;
    assert s[..|s| - 1] == p;
    assert CountLayers(s) == CountLayers(p) + (if e.Layer? then 1 else 0);
    forall k | 0 <= k < |tp.layers|
      ensures RecordMatches(s, backboneLen, m, t, k)
    {
      RecordMatchesGrow(p, e, backboneLen, m, tp, t, k);
    }
    if e.Layer? {
      RecordMatchesNew(p, e.spec, backboneLen, m, tp);
    }
  }

  /** The record an accepted entry adds matches it. */
  lemma RecordMatchesNew(p: seq<Entry>, spec: LayerSpec, backboneLen: nat, m: Multipliers, tp: Table)
    requires |tp.ch| == |tp.layers| + 1 && |tp.layers| == CountLayers(p)
    ensures var t := Step(tp, |p|, Layer(spec), backboneLen, m).value;
      |t.ch| == |t.layers| + 1 && RecordMatches(p + [Layer(spec)], backboneLen, m, t, |tp.layers|)
  {
    var s := p + [Layer(spec)];
    assert s[..|p|] == p;
    CountLayersBound(p);
    var t := Step(tp, |p|, Layer(spec), backboneLen, m).value;
    assert t.ch[..|tp.layers| + 1] == tp.ch;
  }

  /** A record that matched on a prefix still matches after one more entry,
    * as long as the table and the records only grew. */
  lemma RecordMatchesGrow(p: seq<Entry>, e: Entry, backboneLen: nat, m: Multipliers, tp: Table, t: Table, k: nat)
    requires |tp.ch| == |tp.layers| + 1 && |t.ch| == |t.layers| + 1
    requires tp.ch <= t.ch && tp.layers <= t.layers && k < |tp.layers|
    requires RecordMatches(p, backboneLen, m, tp, k)
    ensures RecordMatches(p + [e], backboneLen, m, t, k)
  {
    var s := p + [e];
    var idx := tp.layers[k].idx;
    assert s[..idx] == p[..idx];
    assert t.ch[..k + 1] == tp.ch[..k + 1];
  }

  /** Records appear in entry order: their positions strictly increase. */
  lemma RecordIndicesIncrease(s: seq<Entry>, backboneLen: nat, m: Multipliers, inputChannels: int, j: nat, k: nat)
    requires Interpret(s, backboneLen, m, inputChannels).Ok?
    requires j < k < |Interpret(s, backboneLen, m, inputChannels).value.layers|
    ensures var ls := Interpret(s, backboneLen, m, inputChannels).value.layers;
      ls[j].idx < ls[k].idx
  {
    var t := Interpret(s, backboneLen, m, inputChannels).value;
    InterpretRecords(s, backboneLen, m, inputChannels);
    assert RecordMatches(s, backboneLen, m, t, j);
    assert RecordMatches(s, backboneLen, m, t, k);
    var a, b := t.layers[j].idx, t.layers[k].idx;
    if b <= a {
      CountLayersPrefixMonotone(s, b, a);
    }
  }

  lemma {:induction false} CountLayersPrefixMonotone(s: seq<Entry>, a: nat, b: nat)
    requires a <= b <= |s|
    ensures CountLayers(s[..a]) <= CountLayers(s[..b])
    decreases b - a
  {
    if a < b {
      CountLayersPrefixMonotone(s, a, b - 1);
      assert s[..b][..b - 1] == s[..b - 1];
    }
  }

  /** The channel rules, slot by slot: `ch[0]` is the input count; a concat
    * slot is the exact sum of its resolved inputs; a detect slot is its
    * unscaled base count; every other slot is a multiple of 8. */
  lemma ChannelTable(s: seq<Entry>, backboneLen: nat, m: Multipliers, inputChannels: int)
    requires Interpret(s, backboneLen, m, inputChannels).Ok?
    ensures var t := Interpret(s, backboneLen, m, inputChannels).value;
      && t.ch[0] == inputChannels
      && |t.ch| == CountLayers(s) + 1
      && forall k :: 0 <= k < |t.layers| ==> ChannelSlotRule(s, m.gw, t, k)
  {
    var t := Interpret(s, backboneLen, m, inputChannels).value;
    InterpretRecords(s, backboneLen, m, inputChannels);
    forall k | 0 <= k < |t.layers|
      ensures ChannelSlotRule(s, m.gw, t, k)
    {
      assert RecordMatches(s, backboneLen, m, t, k);
      ChannelSlot(s, backboneLen, m, t, k);
    }
  }

  /** The channel rule for slot k + 1 of the table. */
  ghost predicate ChannelSlotRule(s: seq<Entry>, gw: Rational, t: Table, k: nat)
    requires |t.ch| == |t.layers| + 1 && k < |t.layers|
  {
    && t.layers[k].idx < |s|
    && s[t.layers[k].idx].Layer?
    && var spec := s[t.layers[k].idx].spec;
    var mname := ModuleNameLower(spec.moduleName);
    var c1s := InputChannels(t.ch[..k + 1], Sources(spec.from));
    && (IsConcat(mname) ==> t.ch[k + 1] == Sum(c1s))
    && (!IsConcat(mname) && IsDetect(mname) ==> t.ch[k + 1] == BaseChannels(spec.args, c1s))
    && (!IsConcat(mname) && !IsDetect(mname) ==>
          var b := BaseChannels(spec.args, c1s);
          && t.ch[k + 1] % ChannelDivisor == 0
          && b * gw.num <= t.ch[k + 1] * gw.den < b * gw.num + ChannelDivisor * gw.den)
  }

  lemma ChannelSlot(s: seq<Entry>, backboneLen: nat, m: Multipliers, t: Table, k: nat)
    requires |t.ch| == |t.layers| + 1 && k < |t.layers|
    requires RecordMatches(s, backboneLen, m, t, k)
    ensures ChannelSlotRule(s, m.gw, t, k)
  {
    var spec := s[t.layers[k].idx].spec;
    var c1s := InputChannels(t.ch[..k + 1], Sources(spec.from));
    var mname := ModuleNameLower(spec.moduleName);
    if IsConcat(mname) || IsDetect(mname) {
      OutputChannelsIgnoreWidth(mname, spec.args, c1s, m.gw, m.gw);
    }
  }

  /** The table is never changed retroactively: the table and records of a
    * prefix are prefixes of the final ones. */
  lemma {:induction false} InterpretPrefix(s: seq<Entry>, j: nat, backboneLen: nat, m: Multipliers, inputChannels: int)
    requires j <= |s| && Interpret(s, backboneLen, m, inputChannels).Ok?
    ensures Interpret(s[..j], backboneLen, m, inputChannels).Ok?
    ensures var t, tj := Interpret(s, backboneLen, m, inputChannels).value, Interpret(s[..j], backboneLen, m, inputChannels).value;
      tj.ch <= t.ch && tj.layers <= t.layers
    decreases |s|
  {
    if j < |s| {
      var p := s[..|s| - 1];
      assert p[..j] == s[..j];
      InterpretPrefix(p, j, backboneLen, m, inputChannels);
    } else {
      assert s[..j] == s;
    }
  }

  /** The group of a record depends only on its position: backbone exactly
    * below the backbone length. */
  lemma RecordGroups(d: Config, inputChannels: int)
    requires ParseModel(d, inputChannels).Ok?
    ensures var ls := ParseModel(d, inputChannels).value.layers;
      forall k :: 0 <= k < |ls| ==> (ls[k].group == Backbone <==> ls[k].idx < |d.backbone|)
  {
    var s := d.backbone + d.head;
    var t := Interpret(s, |d.backbone|, MultipliersOf(d), inputChannels).value;
    InterpretRecords(s, |d.backbone|, MultipliersOf(d), inputChannels);
    forall k | 0 <= k < |t.layers|
      ensures t.layers[k].group == Backbone <==> t.layers[k].idx < |d.backbone|
    {
      assert RecordMatches(s, |d.backbone|, MultipliersOf(d), t, k);
    }
  }

  // ---------------------------------------------------------------------
  // Properties of the edge pass
  // ---------------------------------------------------------------------

  /** One edge per (record, source) pair, in record order: the k-th source of
    * the j-th record gives the edge at offset SourceCount(ls[..j]) + k. The
    * placeholder rewrite gives the same source as the one-step EdgeSource. */
  lemma {:induction false} EdgesAt(ls: seq<LayerRecord>, j: nat, k: nat)
    requires j < |ls| && k < |ls[j].from|
    ensures |DeriveEdges(ls)| == SourceCount(ls)
    ensures SourceCount(ls[..j]) + k < SourceCount(ls)
    ensures DeriveEdges(ls)[SourceCount(ls[..j]) + k] == (EdgeSource(ls[j].from[k], ls[j].idx), ls[j].idx)
    decreases |ls|
  {
    var p := ls[..|ls| - 1];
    AllEdgesLength(ls);
    AllEdgesLength(p);
    if j < |p| {
      EdgesAt(p, j, k);
      assert p[..j] == ls[..j];
      assert AllEdges(ls)[SourceCount(ls[..j]) + k] == AllEdges(p)[SourceCount(p[..j]) + k];
    } else {
      assert ls[..j] == p;
      assert AllEdges(ls)[SourceCount(p) + k] == RecordEdges(ls[j])[k];
    }
  }

  lemma {:induction false} AllEdgesLength(ls: seq<LayerRecord>)
    ensures |AllEdges(ls)| == SourceCount(ls)
    decreases |ls|
  {
    if ls != [] {
      AllEdgesLength(ls[..|ls| - 1]);
    }
  }

  /** Every edge ends at a record and starts at -1 (Input) or at a
    * non-negative position; no source is below -1. */
  lemma EdgeEndpoints(ls: seq<LayerRecord>)
    ensures forall i :: 0 <= i < |DeriveEdges(ls)| ==>
      DeriveEdges(ls)[i].0 >= -1 && exists j :: 0 <= j < |ls| && DeriveEdges(ls)[i].1 == ls[j].idx
  {
    RawEdgeEndpoints(ls);
    forall i | 0 <= i < |DeriveEdges(ls)|
      ensures DeriveEdges(ls)[i].0 >= -1 && exists j :: 0 <= j < |ls| && DeriveEdges(ls)[i].1 == ls[j].idx
    {
      assert DeriveEdges(ls)[i].1 == AllEdges(ls)[i].1;
    }
  }

  /** Before the rewrite, every source is the placeholder or non-negative,
    * and every destination is a record position. */
  lemma {:induction false} RawEdgeEndpoints(ls: seq<LayerRecord>)
    ensures forall i :: 0 <= i < |AllEdges(ls)| ==>
      (AllEdges(ls)[i].0 == NoPredecessor || AllEdges(ls)[i].0 >= 0) &&
      exists j :: 0 <= j < |ls| && AllEdges(ls)[i].1 == ls[j].idx
    decreases |ls|
  {
    if ls != [] {
      var p := ls[..|ls| - 1];
      var last := ls[|ls| - 1];
      RawEdgeEndpoints(p);
      forall i | 0 <= i < |AllEdges(ls)|
        ensures (AllEdges(ls)[i].0 == NoPredecessor || AllEdges(ls)[i].0 >= 0) &&
          exists j :: 0 <= j < |ls| && AllEdges(ls)[i].1 == ls[j].idx
      {
        if i < |AllEdges(p)| {
          assert AllEdges(ls)[i] == AllEdges(p)[i];
          var j :| 0 <= j < |p| && AllEdges(p)[i].1 == p[j].idx;
          assert ls[j] == p[j];
        } else {
          assert AllEdges(ls)[i] == RecordEdges(last)[i - |AllEdges(p)|];
        }
      }
    }
  }
}
