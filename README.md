# yml2modelgraph in Dafny

`yml2modelgraph.py` reads an Ultralytics-style model description. That description has a `backbone` list and a `head` list of `[from, repeats, module, args]` entries, plus optional `depth_multiple` and `width_multiple`. The script turns it into a channel-annotated dependency graph and draws it with graphviz. This project models what the script computes before anything is drawn, and proves properties of that model:

- **`make_divisible`** (module `Utils`): ceiling alignment to a multiple of the divisor.
- **The first pass of `parse_yaml_model`** (module `Parse`). It walks `backbone + head` once:
  - It grows the channel table `ch`, which starts as `[input_channels]`, by one slot per accepted entry.
  - It builds one layer record per accepted entry. A record holds the entry's position, its group (backbone or head), its sources, its label lines and its module type.
  - Source resolution, the concat / detect / aligned output-channel rule, repeat scaling (module `Scale`) and the label layout are modelled rule by rule.
  - `Interpret` specifies the pass as a function over the prefix seen so far. `ParseYamlModel` runs the source's loops and is proved to compute `ParseModel`.
- **The edge pass of `parse_yaml_model`**: one edge per (record, source) pair. A source of `-1` means the previous position. Any negative result becomes the placeholder `-999`, and a comprehension then rewrites it to `-1`, the Input node.
- **The bookkeeping of `draw_graph`** (module `Draw`):
  - colours assigned per module type in first-seen order, cycling through a 15-colour palette
  - the backbone / neck / head clusters
  - the de-duplicated edge list, in which dangling sources are redirected to Input
  - `DrawGraph` puts these together.

Four behaviours of the code are easy to misread; the model follows the code:

- A record's `idx` is the entry's position in `backbone + head`, counting skipped entries. So positions are not dense after a skipped entry, and an edge destination can be at or beyond the number of records (`HeadLookupFailsAfterSkip` shows such a record).
- The channel-table slot `s + 1` counts accepted entries, not positions. `ChannelTable` and `RecordMatches` state both numberings.
- An entry with more than four items passes the length check but fails the four-way unpack. The whole parse is then an error (`InterpretErrIff`).
- The clusters are cut by list position, while the backbone length counts raw entries. When the backbone length is at least the number of records, the last record is drawn in the backbone and again as the head (`Partition`).

The float multipliers are modelled as exact rationals, and Python's `round` as exact round-half-to-even.

## Model

| member | source | states |
|---|---|---|
| Utils.MakeDivisible | yml2modelgraph.py:26-30 | None maps to None. Otherwise the result is a multiple of the divisor with v <= r < v + divisor (for a positive divisor; the mirror bounds for a negative one). |
| Utils.MakeDivisibleIsLeast | yml2modelgraph.py:26-30 | No multiple of the divisor that is at least v lies below the result: it is the least such multiple. |
| Utils.MakeDivisibleIdempotent | yml2modelgraph.py:26-30 | Aligning an already aligned value leaves it unchanged. |
| Utils.ParseShowRoundTrip | yml2modelgraph.py:84 | `int(str(n)) == n` for every integer n, so the string coercion reads back every numeral. |
| Utils.ParseInt | yml2modelgraph.py:84 | A text with no digit is not a number; only non-empty text can be one. |
| Utils.ModuleNameLower | yml2modelgraph.py:43-46 | Same length; upper-case ASCII letters are shifted to lower case and every other character is kept. |
| Utils.ContainsIff | yml2modelgraph.py:106 | The substring test used on module names holds exactly when the word occurs at some position. |
| Scale.RoundHalfEven | yml2modelgraph.py:115 | The result is within one half of x, and even on a tie. |
| Scale.RoundHalfEvenUnique | yml2modelgraph.py:115 | Those two facts determine the rounded value: any integer satisfying them is the result. |
| Scale.ScaledRepeat | yml2modelgraph.py:115 | A repeat count <= 1 is shown unchanged; a count > 1 is shown as round(n*gd) when that is at least 1, and as exactly 1 otherwise. |
| Scale.ScaledRepeatUnitDepth | yml2modelgraph.py:115 | With the default depth multiple 1, every repeat count is shown as given. |
| Scale.ScaledWidth | yml2modelgraph.py:112 | The scaled width is a multiple of 8, at least c2*gw and below c2*gw + 8. |
| Scale.ScaledWidthUnit | yml2modelgraph.py:112 | With the default width multiple 1, the width is the least multiple of 8 not below c2. |
| Parse.MultipliersOf | yml2modelgraph.py:69-70 | Computes gd and gw, each defaulting to 1 when the key is absent; Scale.ScaledRepeatUnitDepth and Scale.ScaledWidthUnit state what those defaults mean. |
| Parse.Sources | yml2modelgraph.py:82 | Computes `from_idxs`: a single integer becomes a one-element list, and a list is kept as it is. |
| Parse.SourceIndex | yml2modelgraph.py:94-98 | Computes `int(src)` with -1 for text that is not a number; Parse.TextSourceLikePrevious and Parse.TextSourceNumeral characterize it. |
| Parse.RepeatCount | yml2modelgraph.py:83-86 | Computes `int(n)` with 1 when the value cannot be coerced; Parse.RepeatCountCoercion characterizes it. |
| Parse.ResolveSource | yml2modelgraph.py:93-103 | A resolved input channel count is always a count already in the table. |
| Parse.ResolveInputs | yml2modelgraph.py:92-103 | The `c1s` loop yields one count per source: -1 is the last slot; s is slot s+1 when it exists, and the last slot otherwise. |
| Parse.TextSourceLikePrevious | yml2modelgraph.py:94-100 | A source text that is not a number behaves as -1, both for channels and for edges. |
| Parse.TextSourceNumeral | yml2modelgraph.py:94-96 | A numeral source text is the number it spells. |
| Parse.RepeatCountCoercion | yml2modelgraph.py:83-86 | An integer repeat is kept and a numeral is read; anything that cannot be coerced counts as 1. |
| Parse.OutputChannels | yml2modelgraph.py:106-114 | A module that is neither a concat nor a detect outputs a multiple of 8, and that count c2 is pinned by its base count b and the width multiple gw: b·gw ≤ c2 < b·gw + 8. |
| Parse.OutputChannelsIgnoreWidth | yml2modelgraph.py:106-111 | Concat and detect outputs do not depend on the width multiple. A concat outputs the exact sum of its inputs; a detect outputs the int first argument, else the first input, else 0. |
| Parse.OutputChannelsUnitWidth | yml2modelgraph.py:109-112 | With width multiple 1, a plain module outputs its base count rounded up to the next multiple of 8. |
| Parse.Label | yml2modelgraph.py:117-124 | A detect label has 3 lines. Any other label has 4 lines when there are arguments and 3 otherwise. The first line is the module name, the repeat line is present, and the lines come in the source's order: a detect label is name, repeats, arguments; any other is name, sum(c1s) → c2, repeats, then the arguments when there are any. |
| Parse.MakeRecord | yml2modelgraph.py:88-125 | Builds the record of one accepted entry: its raw position, its group, its sources, its label lines and its type; Parse.InterpretRecords and Parse.RecordGroups state its properties over the whole pass. |
| Parse.Step | yml2modelgraph.py:79-126 | Computes one iteration of the pass: a skipped entry changes nothing, an over-long entry is the unpack error, and an accepted entry appends one record and one table slot; Parse.InterpretRecords and Parse.InterpretErrIff state its effect. |
| Parse.Interpret | yml2modelgraph.py:75-126 | The channel table always has one slot more than there are records, and slot 0 is the input channel count. |
| Parse.InterpretErrIff | yml2modelgraph.py:79-81 | The parse fails exactly when some entry has more than four items. |
| Parse.InterpretErrSticks | yml2modelgraph.py:81 | Once the pass fails, the failure is the result of the whole parse. |
| Parse.InterpretRecords | yml2modelgraph.py:78-126 | There is one record per accepted entry. The k-th record comes from the k-th accepted entry, at that entry's raw position. Its record and its table slot k+1 are computed from the table as it stood before it. |
| Parse.RecordIndicesIncrease | yml2modelgraph.py:78-125 | Records are in entry order: their positions strictly increase. |
| Parse.ChannelTable | yml2modelgraph.py:75-126 | ch[0] is the input channel count and the table has one slot per accepted entry plus one. A concat slot is the sum of its resolved inputs, a detect slot its unscaled base count, and any other slot a multiple of 8 within 8 of its base count times the width multiple (b·gw ≤ slot < b·gw + 8). |
| Parse.InterpretPrefix | yml2modelgraph.py:100-126 | The table and records are only appended to: those of a prefix are prefixes of the final ones. |
| Parse.RecordGroups | yml2modelgraph.py:88 | A record is in the backbone group exactly when its position is below the backbone length. |
| Parse.EdgeSource | yml2modelgraph.py:132-143 | An edge source is never below -1. A -1 source becomes dst-1, which is -1 (Input) for the record at position 0; a non-negative source is kept, and any other negative source becomes -1. |
| Parse.RawSource | yml2modelgraph.py:132-141 | Computes the edge source before the rewrite, with -999 for any negative result; Parse.RawEdgeEndpoints and Parse.EdgesAt characterize it. |
| Parse.Unsentinel | yml2modelgraph.py:143 | Computes the comprehension that turns the -999 placeholder into -1; Parse.EdgesAt and Parse.EdgeEndpoints state the result. |
| Parse.CollectEdges | yml2modelgraph.py:129-142 | The nested edge loop builds exactly the placeholder edge list of the records. |
| Parse.AllEdgesLength | yml2modelgraph.py:129-142 | There is exactly one edge per (record, source) pair. |
| Parse.EdgesAt | yml2modelgraph.py:128-143 | Edges come in record order without de-duplication. The k-th source of the j-th record gives the edge at offset (sources of earlier records) + k. Its destination is the record's idx and its source is EdgeSource. |
| Parse.EdgeEndpoints | yml2modelgraph.py:128-143 | Every edge ends at a record position and starts at -1 or higher. |
| Parse.RawEdgeEndpoints | yml2modelgraph.py:129-142 | Before the rewrite, every edge source is the placeholder -999 or a non-negative position, and every destination is a record position. |
| Parse.ParseYamlModel | yml2modelgraph.py:64-144 | The loops compute the specification ParseModel: the error case, the records, the placeholder-rewritten edges and the backbone length. |
| Parse.ParseModel | yml2modelgraph.py:64-144 | Computes the whole parse as a function: the unpack error, or the records, the rewritten edges and the backbone length; Parse.ParseYamlModel is proved to compute it, and Parse.RecordGroups and the first-pass lemmas state its properties. |
| Draw.PaletteDistinct | yml2modelgraph.py:54-60 | The palette has 15 pairwise different colours. |
| Draw.FirstSeen | yml2modelgraph.py:161-165 | The first-seen list is never longer than its input; it computes what a loop skipping already-seen elements collects, and Draw.FirstSeenMembers, Draw.FirstSeenDistinct and Draw.FirstSeenOrder characterize it. |
| Draw.FirstSeenMembers | yml2modelgraph.py:161-165 | The first-seen list holds exactly the elements of its input. |
| Draw.FirstSeenDistinct | yml2modelgraph.py:161-165 | The first-seen list has no repeated element. |
| Draw.FirstSeenOrder | yml2modelgraph.py:161-165 | The first-seen list orders elements by their first occurrence. |
| Draw.FirstSeenPrefix | yml2modelgraph.py:161-165 | The first-seen list of a prefix is a prefix of the first-seen list. |
| Draw.FirstIndex | yml2modelgraph.py:161-165 | The first occurrence of x is at the returned position and nowhere before it. |
| Draw.ColorsFollowStep | yml2modelgraph.py:163-165 | Giving a new type the next palette entry keeps the colour table in step with the first-seen types. |
| Draw.ColorsOfTypes | yml2modelgraph.py:161-165 | A colour table in step with the first-seen types has exactly those types as keys. |
| Draw.AssignColors | yml2modelgraph.py:157-165 | Every module type present gets exactly one colour, and the k-th distinct type in first-seen order gets palette entry k mod 15. The counter ends at the number of distinct types. |
| Draw.HeadNode | yml2modelgraph.py:167-201 | The head node is absent exactly when there are no records; otherwise it is the last record. |
| Draw.BackboneNodes | yml2modelgraph.py:182 | Computes `layers[:backbone_len]`; Draw.Partition states its length and how it joins the neck and head. |
| Draw.NeckNodes | yml2modelgraph.py:168 | Computes `layers[backbone_len:-1]` when the backbone length is below the record count minus one, and the empty list otherwise; Draw.Partition states the result. |
| Draw.Partition | yml2modelgraph.py:167-201 | When the backbone length is below the record count, backbone ++ neck ++ [head] is the record list, each record once and in order. Otherwise the backbone is every record, the neck is empty and the last record is also the head. The backbone length is min(backbone length, record count). |
| Draw.HeadNodeAsWritten | yml2modelgraph.py:167-201 | With no records there is no head and no failure. |
| Draw.HeadNodeAsWrittenIff | yml2modelgraph.py:167-201 | On parsed records, the source's head lookup succeeds exactly when no entry before the last record's position was skipped, and it then finds the last record. |
| Draw.HeadLookupFailsAfterSkip | yml2modelgraph.py:201 | One skipped entry before a single layer makes the source's head lookup index past the end, while the corrected head is that layer. |
| Draw.EdgeIds | yml2modelgraph.py:217-221 | The destination is the layer id. A negative source becomes Input, an unknown layer id becomes Input, and a known non-negative one is kept. |
| Draw.ExistingNodes | yml2modelgraph.py:214 | Computes the set of layer ids `L<idx>`; Draw.EdgeIds and Draw.EmitEdges use it to decide which sources are redirected. |
| Draw.EdgeKey | yml2modelgraph.py:217-221 | The loop body's key computation agrees with EdgeIds. |
| Draw.EmittedEdges | yml2modelgraph.py:214-224 | Every redirected edge is emitted, and every emitted source is Input or an existing layer. |
| Draw.EmitEdges | yml2modelgraph.py:214-224 | Each pair of ids is emitted once, in first-occurrence order. Every input edge's redirected ids are emitted, and no emitted source is dangling. |
| Draw.ClustersAreLayers | yml2modelgraph.py:182-201 | A record is in some cluster exactly when it is one of the records. |
| Draw.KindInTypes | yml2modelgraph.py:161-184 | The module type of every record is among the coloured types. |
| Draw.DrawGraph | yml2modelgraph.py:157-224 | The clusters are exactly Partition(layers, backbone_len), so the head is the last record. The colour table has exactly the record types as keys, and the k-th first-seen type gets palette entry k mod 15. Every record is drawn in a cluster, and every clustered node is a record with a fill colour. The emitted edges are the first-seen redirected edges. The head is the corrected one of the Findings row: where the source raises IndexError at line 201, this still returns a drawing. |

## Findings

| source | as written | input that shows it | evidently intended | confidence | as-written member | corrected member |
|---|---|---|---|---|---|---|
| yml2modelgraph.py:167-201 | `head_idx` is the last record's `idx`, the raw entry position, and is then used as a list position in `layers[head_idx]` | a `backbone` whose first entry is not a four-item list (say `[]`), followed by one valid layer: the record has idx 1 but the list has one element, so the lookup raises IndexError | draw the last record as the head node | not executed | Draw.HeadNodeAsWritten, Draw.HeadLookupFailsAfterSkip | Draw.HeadNode, Draw.Partition |

## Left out

- `safe_eval`: Python `eval` of argument strings is not modelled. Arguments are taken as already evaluated values: an integer, a string, or anything else.
- YAML loading, the command line in `main`, every graphviz call (`Digraph`, attributes, subgraphs, `node`, `edge`, `render`), `os.makedirs` and `print` are I/O or a foreign library and are not modelled. So is the node styling, including the fixed "Input C=3" label and the larger head node.
- Float arithmetic: the multipliers are exact rationals, so float rounding, precision loss, `inf` and `NaN` are not modelled. The `except: pass` around the width scaling is unreachable in the model for that reason.
- A multiplier key that is present with a non-number value (`float(None)` raises) is not modelled: the multipliers are either absent (1) or rationals.
- Utils.ParseInt: models `int(str)` for an optional sign followed by ASCII digits. Python also accepts surrounding whitespace, `_` separators and non-ASCII digits, and those are not modelled.
- Parse.RepeatCountCoercion: a float or boolean repeat count (`int(2.7) == 2`, `int(True) == 1`) is not modelled. Every value other than an integer or a string counts as 1, as an uncoercible value does.
- Parse.OutputChannels: a boolean first argument counts as an int in Python (`isinstance(True, int)`). The model's argument values have no booleans.
- Utils.ModuleNameLower: lower-cases ASCII letters only. Python's Unicode `lower()` and the `__name__` lookup on a non-string module object are not modelled: modules are given by name.
- A string `from` field (iterated character by character), a dict `from` and sources that are neither integers nor text are not modelled; `from` is an integer or a list of integers and texts. In the source a `-1.0` source acts as -1 (line 99 compares with `==`), another float source falls back to `ch[-1]` when `src + 1` is out of range and raises TypeError at line 103 when it is in range, `None` raises TypeError at `src + 1` on line 102, and `True`/`False` act as 1/0.
- The `args` field is taken to be a list. The source iterates `args or []` (line 87), so a non-empty string is evaluated character by character and a non-zero number or another non-iterable value raises TypeError; neither is modelled.
- Parse.Label: the label is a list of structured lines. Their joining into one string, `str(args)` and Python's repr are not modelled.
- Draw.DrawGraph: draws the corrected head (the last record). When an entry before the last record was skipped, the source instead raises IndexError at line 201 (see "## Findings"); that failure is modelled only by Draw.HeadNodeAsWritten.
