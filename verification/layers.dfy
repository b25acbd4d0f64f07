/**
 The layer segmenter of `process_gcode_file`: the Z-move test applied to every
 input line, and the single pass that groups lines into layers. A layer starts at
 each boundary line; the lines before the first boundary form a layer of their
 own, and the buffer still open at the end of input is emitted as the last layer.
 Lines carry their own line terminator, as `readlines` returns them.

 The pass is stated for any boundary test `isBoundary`; `Segment` is that pass
 with the Z-move test `IsZMove`.
 */
module Layers {
  import opened Text

  /** The part of a line before its first `;`, as `line.split(';')[0]` keeps it. */
  function CutComment(line: string): (r: string)
    ensures |r| <= |line| && r == line[..|r|]
    ensures forall k :: 0 <= k < |r| ==> r[k] != ';'
    ensures |r| < |line| ==> line[|r|] == ';'
    decreases |line|
  {
    if |line| == 0 || line[0] == ';' then "" else [line[0]] + CutComment(line[1..])
  }

  /** The text the Z-move test looks at: the line cut at `;`, then stripped. */
  function Clean(line: string): string {
    Strip(CutComment(line))
  }

  /** A line is a layer boundary when its cleaned text contains `"G0 "` or `"G1 "`
      and also contains `" Z"` (substring tests, not token tests). */
  predicate IsZMove(line: string) {
    var c := Clean(line);
    (Contains(c, "G0 ") || Contains(c, "G1 ")) && Contains(c, " Z")
  }

  /** The boundary test in terms of positions: both substrings occur somewhere in the
      cleaned line, at any position and in any order. */
  lemma IsZMoveMeaning(line: string)
    ensures IsZMove(line) <==> && ((exists i: nat :: OccursAt(Clean(line), "G0 ", i))
                                   || (exists i: nat :: OccursAt(Clean(line), "G1 ", i)))
                               && (exists i: nat :: OccursAt(Clean(line), " Z", i))
  {
  }

  /** A line without `;` is kept whole. */
  lemma CutWithoutSemicolon(line: string)
    requires forall k :: 0 <= k < |line| ==> line[k] != ';'
    ensures CutComment(line) == line
  {
  }

  /** The cut falls at the first `;`. */
  lemma CutAtFirstSemicolon(code: string, comment: string)
    requires forall k :: 0 <= k < |code| ==> code[k] != ';'
    ensures CutComment(code + ";" + comment) == code
  {
    var line := code + ";" + comment;
    var r := CutComment(line);
    assert line[|code|] == ';';
    assert forall k :: 0 <= k < |code| ==> line[k] == code[k];
    assert r == line[..|r|];
  }

  /** Text after a `;` is a comment: whatever it holds, it never makes a line a
      boundary. */
  lemma CommentIgnored(code: string, comment: string)
    requires forall k :: 0 <= k < |code| ==> code[k] != ';'
    ensures IsZMove(code + ";" + comment) == IsZMove(code)
  {
    CutAtFirstSemicolon(code, comment);
    CutWithoutSemicolon(code);
  }

  /** A line opening with `G0 Z` or `G1 Z` and holding no `;` is a boundary,
      whatever follows. */
  lemma LeadingZMove(line: string)
    requires |line| >= 4 && (line[..4] == "G0 Z" || line[..4] == "G1 Z")
    requires forall k :: 0 <= k < |line| ==> line[k] != ';'
    ensures IsZMove(line)
  {
    var cmd := line[..4];
    var c := Clean(line);
    CleanKeepsHead(line, cmd);
    if cmd == "G0 Z" {
      assert OccursAt(cmd, "G0 ", 0) && OccursAt(cmd, " Z", 2);
      ContainsViaPrefix(c, cmd, "G0 ", 0);
    } else {
      assert OccursAt(cmd, "G1 ", 0) && OccursAt(cmd, " Z", 2);
      ContainsViaPrefix(c, cmd, "G1 ", 0);
    }
    ContainsViaPrefix(c, cmd, " Z", 2);
  }

  /** Without a `;`, the cleaned line still starts with a head that has no
      whitespace at either end. */
  lemma CleanKeepsHead(line: string, head: string)
    requires 0 < |head| <= |line| && line[..|head|] == head
    requires !IsSpace(head[0]) && !IsSpace(head[|head| - 1])
    requires forall k :: 0 <= k < |line| ==> line[k] != ';'
    ensures |head| <= |Clean(line)| && Clean(line)[..|head|] == head
  {
    CutWithoutSemicolon(line);
    assert line[0] == head[0] && line[|head| - 1] == head[|head| - 1];
    StripKeepsHead(line, |head|);
  }

  lemma ContainsViaPrefix(t: string, h: string, sub: string, i: nat)
    requires |h| <= |t| && t[..|h|] == h && OccursAt(h, sub, i)
    ensures Contains(t, sub)
  {
    assert t[i..i + |sub|] == h[i..i + |sub|];
    assert OccursAt(t, sub, i);
  }

  /** The number of boundary lines in `lines`. */
  function CountZ(lines: seq<string>, isBoundary: string -> bool): nat
    decreases |lines|
  {
    if |lines| == 0 then 0
    else CountZ(lines[..|lines| - 1], isBoundary) + (if isBoundary(lines[|lines| - 1]) then 1 else 0)
  }

  /** 1 when the input opens with lines that precede any boundary (the pre-amble layer), else 0. */
  function Lead(lines: seq<string>, isBoundary: string -> bool): nat {
    if |lines| > 0 && !isBoundary(lines[0]) then 1 else 0
  }

  /** The shape every segmentation has: no empty layer, every layer but the first
      opens with a boundary line, and no layer holds a boundary anywhere else. */
  ghost predicate WellSegmented(layers: seq<seq<string>>, isBoundary: string -> bool) {
    && (forall k :: 0 <= k < |layers| ==> |layers[k]| > 0)
    && (forall k :: 0 < k < |layers| ==> isBoundary(layers[k][0]))
    && (forall k, j :: 0 <= k < |layers| && 0 < j < |layers[k]| ==> !isBoundary(layers[k][j]))
  }

  /** The loop state: the layers already written out, and `layer_buffer`. */
  datatype Scan = Scan(layers: seq<seq<string>>, buffer: seq<string>)

  /** The layers written so far plus the open buffer, if it is non-empty (`if layer_buffer:`). */
  function Flush(st: Scan): seq<seq<string>> {
    if |st.buffer| > 0 then st.layers + [st.buffer] else st.layers
  }

  /** One loop iteration: a boundary line flushes the open buffer and starts a new
      one; any other line is appended to the open buffer. */
  function Step(st: Scan, line: string, isBoundary: string -> bool): Scan {
    if isBoundary(line) then Scan(Flush(st), [line])
    else Scan(st.layers, st.buffer + [line])
  }

  /** The loop state after the loop has consumed all of `lines`. */
  function Run(lines: seq<string>, isBoundary: string -> bool): Scan
    decreases |lines|
  {
    if |lines| == 0 then Scan([], [])
    else Step(Run(lines[..|lines| - 1], isBoundary), lines[|lines| - 1], isBoundary)
  }

  /** The loop state after one more line is one `Step` further. */
  lemma RunNext(lines: seq<string>, i: nat, isBoundary: string -> bool)
    requires i < |lines|
    ensures Run(lines[..i + 1], isBoundary) == Step(Run(lines[..i], isBoundary), lines[i], isBoundary)
  {
    assert lines[..i + 1][..i] == lines[..i];
  }

  /** What the loop keeps true: the layers written so far plus the open buffer are the
      lines read so far, cut into well-formed layers, one per boundary line plus the
      pre-amble layer; the buffer is empty only before the first line. */
  lemma {:induction false} RunInvariant(lines: seq<string>, isBoundary: string -> bool)
    ensures Flatten(Flush(Run(lines, isBoundary))) == lines
    ensures |Run(lines, isBoundary).buffer| == 0 <==> |lines| == 0
    ensures |Run(lines, isBoundary).buffer| == 0 ==> Run(lines, isBoundary).layers == []
    ensures WellSegmented(Flush(Run(lines, isBoundary)), isBoundary)
    ensures |Flush(Run(lines, isBoundary))| == CountZ(lines, isBoundary) + Lead(lines, isBoundary)
    decreases |lines|
  {
    if |lines| > 0 {
      var prefix := lines[..|lines| - 1];
      var line := lines[|lines| - 1];
      assert lines == prefix + [line];
      RunInvariant(prefix, isBoundary);
      var prev := Run(prefix, isBoundary);
      StepFlatten(prefix, prev, line, isBoundary);
      StepShape(prev, line, isBoundary);
      StepCount(prefix, prev, line, isBoundary);
    }
  }

  lemma StepFlatten(prefix: seq<string>, prev: Scan, line: string, isBoundary: string -> bool)
    requires Flatten(Flush(prev)) == prefix
    requires |prev.buffer| == 0 ==> prev.layers == []
    ensures Flatten(Flush(Step(prev, line, isBoundary))) == prefix + [line]
  {
    var next := Step(prev, line, isBoundary);
    if isBoundary(line) {
      assert Flush(next) == Flush(prev) + [[line]];
      FlattenAppend(Flush(prev), [[line]]);
      FlattenSingle([line]);
    } else if |prev.buffer| == 0 {
      assert prev.buffer + [line] == [line];
      assert Flush(next) == [[line]];
      FlattenSingle([line]);
    } else {
      assert Flush(prev) == prev.layers + [prev.buffer];
      assert Flush(next) == prev.layers + [prev.buffer + [line]];
      FlattenAppend(prev.layers, [prev.buffer]);
      FlattenAppend(prev.layers, [prev.buffer + [line]]);
      FlattenSingle(prev.buffer);
      FlattenSingle(prev.buffer + [line]);
    }
  }

  lemma StepShape(prev: Scan, line: string, isBoundary: string -> bool)
    requires |prev.buffer| == 0 ==> prev.layers == []
    requires WellSegmented(Flush(prev), isBoundary)
    ensures WellSegmented(Flush(Step(prev, line, isBoundary)), isBoundary)
  {
    var before := Flush(prev);
    var after := Flush(Step(prev, line, isBoundary));
    if isBoundary(line) {
      assert after == before + [[line]];
      forall k | 0 <= k < |after|
        ensures |after[k]| > 0 && (k > 0 ==> isBoundary(after[k][0]))
      {
        if k < |before| { assert after[k] == before[k]; }
      }
      forall k, j | 0 <= k < |after| && 0 < j < |after[k]|
        ensures !isBoundary(after[k][j])
      {
        assert k < |before| && after[k] == before[k];
      }
    } else if |prev.buffer| == 0 {
      assert prev.buffer + [line] == [line];
      assert after == [[line]];
    } else {
      var b := prev.buffer;
      assert before == prev.layers + [b];
      assert after == prev.layers + [b + [line]];
      forall k | 0 <= k < |after|
        ensures |after[k]| > 0 && (k > 0 ==> isBoundary(after[k][0]))
      {
        if k < |prev.layers| {
          assert after[k] == before[k];
        } else {
          assert after[k][0] == b[0] == before[k][0];
        }
      }
      forall k, j | 0 <= k < |after| && 0 < j < |after[k]|
        ensures !isBoundary(after[k][j])
      {
        if k < |prev.layers| {
          assert after[k] == before[k];
        } else if j < |b| {
          assert after[k][j] == before[k][j];
        }
      }
    }
  }

  lemma StepCount(prefix: seq<string>, prev: Scan, line: string, isBoundary: string -> bool)
    requires |prev.buffer| == 0 <==> |prefix| == 0
    requires |Flush(prev)| == CountZ(prefix, isBoundary) + Lead(prefix, isBoundary)
    ensures |Flush(Step(prev, line, isBoundary))|
            == CountZ(prefix + [line], isBoundary) + Lead(prefix + [line], isBoundary)
  {
    var lines := prefix + [line];
    assert lines[..|lines| - 1] == prefix;
    if |prefix| > 0 {
      assert lines[0] == prefix[0];
    }
  }

  /** The layers the loop emits for any boundary test, in order. */
  function SegmentBy(lines: seq<string>, isBoundary: string -> bool): (layers: seq<seq<string>>)
    ensures Flatten(layers) == lines
    ensures WellSegmented(layers, isBoundary)
    ensures |layers| == CountZ(lines, isBoundary) + Lead(lines, isBoundary)
  {
    RunInvariant(lines, isBoundary);
    Flush(Run(lines, isBoundary))
  }

  /** The layers `process_gcode_file` expands, in order: nothing dropped, duplicated or
      reordered; Z-moves only open layers; one layer per Z-move plus the pre-amble. */
  function Segment(lines: seq<string>): (layers: seq<seq<string>>)
    ensures Flatten(layers) == lines
    ensures WellSegmented(layers, IsZMove)
    ensures |layers| == CountZ(lines, IsZMove) + Lead(lines, IsZMove)
  {
    SegmentBy(lines, IsZMove)
  }

  /** The layers are what the final flush leaves. */
  lemma SegmentIsLastFlush(lines: seq<string>, written: seq<seq<string>>, buffer: seq<string>)
    requires Run(lines, IsZMove) == Scan(written, buffer)
    ensures Segment(lines) == Flush(Scan(written, buffer))
  {
  }

  /** Running the loop over a prefix and then over one more well-formed layer leaves
      the prefix's layers written out and that layer as the open buffer. */
  lemma {:induction false} RunOverLayer(xs: seq<string>, b: seq<string>, isBoundary: string -> bool)
    requires |b| > 0
    requires forall j :: 0 < j < |b| ==> !isBoundary(b[j])
    requires |xs| > 0 ==> isBoundary(b[0])
    ensures Run(xs + b, isBoundary) == Scan(SegmentBy(xs, isBoundary), b)
    decreases |b|
  {
    var lines := xs + b;
    if |b| == 1 {
      assert lines[..|lines| - 1] == xs;
      if !isBoundary(b[0]) {
        assert xs == [];
        assert [] + [b[0]] == b;
      } else {
        assert [b[0]] == b;
      }
    } else {
      var b' := b[..|b| - 1];
      var last := b[|b| - 1];
      assert b == b' + [last];
      assert lines[..|lines| - 1] == xs + b';
      RunOverLayer(xs, b', isBoundary);
    }
  }

  /** The segmentation is the only partition of the input with the shape
      `WellSegmented` describes: that shape determines it completely. */
  lemma {:induction false} SegmentUnique(lines: seq<string>, layers: seq<seq<string>>, isBoundary: string -> bool)
    requires Flatten(layers) == lines
    requires WellSegmented(layers, isBoundary)
    ensures SegmentBy(lines, isBoundary) == layers
    decreases |layers|
  {
    if |layers| > 0 {
      var front := layers[..|layers| - 1];
      var b := layers[|layers| - 1];
      assert layers == front + [b];
      assert WellSegmented(front, isBoundary);
      SegmentUnique(Flatten(front), front, isBoundary);
      if |Flatten(front)| > 0 {
        assert |front| > 0;
      }
      RunOverLayer(Flatten(front), b, isBoundary);
    }
  }

  /** Splitting the input just before a boundary line splits the layers there too. */
  lemma SegmentSplitsAtBoundary(xs: seq<string>, ys: seq<string>, isBoundary: string -> bool)
    requires |ys| > 0 && isBoundary(ys[0])
    ensures SegmentBy(xs + ys, isBoundary) == SegmentBy(xs, isBoundary) + SegmentBy(ys, isBoundary)
  {
    var sx, sy := SegmentBy(xs, isBoundary), SegmentBy(ys, isBoundary);
    FlattenAppend(sx, sy);
    FlattenHead(sy);
    var all := sx + sy;
    assert WellSegmented(all, isBoundary) by {
      forall k | 0 < k < |all|
        ensures isBoundary(all[k][0])
      {
        if k >= |sx| {
          assert all[k] == sy[k - |sx|];
        }
      }
      forall k, j | 0 <= k < |all| && 0 < j < |all[k]|
        ensures !isBoundary(all[k][j])
      {
        if k >= |sx| {
          assert all[k] == sy[k - |sx|];
        }
      }
    }
    SegmentUnique(xs + ys, all, isBoundary);
  }

  /** A run of lines with no boundary after its first line is a single layer. */
  lemma SingleLayer(ys: seq<string>, isBoundary: string -> bool)
    requires |ys| > 0
    requires forall j :: 0 < j < |ys| ==> !isBoundary(ys[j])
    ensures SegmentBy(ys, isBoundary) == [ys]
  {
    FlattenSingle(ys);
    SegmentUnique(ys, [ys], isBoundary);
  }

  /** A layer starts right before line `|xs|` of the input exactly when that line is a
      boundary (the very first line always starts one). */
  lemma BoundariesOpenLayers(xs: seq<string>, ys: seq<string>, isBoundary: string -> bool)
    requires |xs| > 0 && |ys| > 0
    ensures isBoundary(ys[0]) <==>
            exists k :: 0 < k < |SegmentBy(xs + ys, isBoundary)|
                        && Flatten(SegmentBy(xs + ys, isBoundary)[..k]) == xs
  {
    var layers := SegmentBy(xs + ys, isBoundary);
    if isBoundary(ys[0]) {
      SegmentSplitsAtBoundary(xs, ys, isBoundary);
      var k := |SegmentBy(xs, isBoundary)|;
      assert layers[..k] == SegmentBy(xs, isBoundary);
      assert 0 < k < |layers|;
    } else {
      if k :| 0 < k < |layers| && Flatten(layers[..k]) == xs {
        assert layers == layers[..k] + layers[k..];
        FlattenAppend(layers[..k], layers[k..]);
        assert xs + Flatten(layers[k..]) == xs + ys;
        assert Flatten(layers[k..]) == (xs + ys)[|xs|..] == ys;
        assert layers[k..][0] == layers[k];
        FlattenHead(layers[k..]);
        assert false;
      }
    }
  }
}
