/**
 The zone expander and document assembler of `process_gcode_file`: every layer is
 written once, then four more times, each copy preceded by a zone broadcast
 (`M118 P0 Zone d`, d = 200, 400, 600, 800) and an extruder reset (`G92 E0`),
 then closed by `M118 P0 Zone 0`. The expanded layers sit between a fixed header
 and footer.
 */
module Expansion {
  import opened Text
  import opened Layers

  /** The fixed text written before the expanded layers. */
  const GcodeHeader: string :=
    ";FLAVOR:Marlin\n" +
    ";TIME:6666\n" +
    ";Filament used: 0m\n" +
    ";Layer height: 0.2\n" +
    ";MINX:2.14748e+06\n" +
    ";MINY:2.14748e+06\n" +
    ";MINZ:2.14748e+06\n" +
    ";MAXX:-2.14748e+06\n" +
    ";MAXY:-2.14748e+06\n" +
    ";MAXZ:-2.14748e+06\n" +
    "\n" +
    ";Generated with Cura_SteamEngine 4.6.2\n" +
    "M104 S205\n" +
    "M105\n" +
    "M109 S205\n" +
    "M82 ;absolute extrusion mode\n" +
    ";---------- start gcode ----------\n" +
    "M2000 ;custom: set to line-mode\n" +
    "M888 P3 ;custom: current is p3d\n" +
    ";move header up 10mm\n" +
    "G1 Z10 F1000\n" +
    "G92 E0\n" +
    "G1 F200 E3\n" +
    "G92 E0\n" +
    ";---------------------------------\n" +
    "G92 E0\n" +
    "G92 E0\n" +
    "G1 F2400 E-7\n" +
    ";LAYER_COUNT:15\n" +
    ";LAYER:0\n" +
    "M107\n" +
    "M204 S100\n" +
    "\n" +
    "G0 F12000 X99.28 Y332.613 Z0.2\n" +
    ";TYPE:WALL-INNER\n" +
    "G1 F3600 E0\n"

  /** The fixed text written after the expanded layers. */
  const GcodeFooter: string :=
    ";TIME_ELAPSED:4717.883399\n" +
    "G1 F2400 E901.95044\n" +
    "M204 S200\n" +
    "M107\n" +
    ";----------- end gcode -----------\n" +
    ";move header up 10mm\n" +
    "G91\n" +
    "G0 Z10\n" +
    "G90\n" +
    "M104 S0\n" +
    ";retract the filament\n" +
    "G92 E1\n" +
    "G1 E-1 F300\n" +
    ";---------------------------------\n" +
    "M82 ;absolute extrusion mode\n" +
    "M104 S0\n" +
    ";End of Gcode\n"

  /** The extruder reset written before every copy. */
  const ResetLine: string := "G92 E0\n"

  /** The zone broadcast line for zone `d`: `f"M118 P0 Zone {d}\n"`. */
  function ZoneMarker(d: nat): string {
    "M118 P0 Zone " + NatToDecimal(d) + "\n"
  }

  /** What iterations 1..n of `for i in range(1, 5)` write: for each i, the marker
      for zone `i * 200`, the reset, and the layer. */
  function Copies(layer: string, n: nat): string
    decreases n
  {
    if n == 0 then "" else Copies(layer, n - 1) + ZoneMarker(n * 200) + ResetLine + layer
  }

  /** The block written for one layer, by the in-loop flush and the end-of-input flush alike. */
  function ExpandLayer(layer: string): string {
    layer + Copies(layer, 4) + ZoneMarker(0)
  }

  /** The five zone broadcast lines, as text. */
  lemma ZoneMarkerTexts()
    ensures ZoneMarker(200) == "M118 P0 Zone 200\n" && ZoneMarker(400) == "M118 P0 Zone 400\n"
    ensures ZoneMarker(600) == "M118 P0 Zone 600\n" && ZoneMarker(800) == "M118 P0 Zone 800\n"
    ensures ZoneMarker(0) == "M118 P0 Zone 0\n"
  {
    assert ZoneMarker(200) == "M118 P0 Zone 200\n" by {
      assert NatToDecimal(20) == "20";
    }
    assert ZoneMarker(400) == "M118 P0 Zone 400\n" by {
      assert NatToDecimal(40) == "40";
    }
    assert ZoneMarker(600) == "M118 P0 Zone 600\n" by {
      assert NatToDecimal(60) == "60";
    }
    assert ZoneMarker(800) == "M118 P0 Zone 800\n" by {
      assert NatToDecimal(80) == "80";
    }
  }

  /** The block as a sequence of pieces: the layer, four groups of marker, reset and
      layer for zones 200, 400, 600, 800, then the zone-0 marker. */
  lemma ExpandLayerPieces(L: string)
    ensures ExpandLayer(L) ==
            L
            + ZoneMarker(200) + ResetLine + L
            + ZoneMarker(400) + ResetLine + L
            + ZoneMarker(600) + ResetLine + L
            + ZoneMarker(800) + ResetLine + L
            + ZoneMarker(0)
  {
    var a1 := L + ZoneMarker(200) + ResetLine + L;
    assert a1 == L + Copies(L, 1) by {
      CopiesStep(L, L, 1);
      assert L + Copies(L, 0) == L;
    }
    var a2 := a1 + ZoneMarker(400) + ResetLine + L;
    assert a2 == L + Copies(L, 2) by {
      CopiesStep(L, L, 2);
    }
    var a3 := a2 + ZoneMarker(600) + ResetLine + L;
    assert a3 == L + Copies(L, 3) by {
      CopiesStep(L, L, 3);
    }
    var a4 := a3 + ZoneMarker(800) + ResetLine + L;
    assert a4 == L + Copies(L, 4) by {
      CopiesStep(L, L, 4);
    }
  }

  /** The block for layer text `L`, written out: `L`, then for zones 200, 400, 600 and
      800 in that order the zone marker, the reset and `L` again, then the zone-0
      marker. Five identical copies of `L`, four resets, none before `Zone 0`. Nothing
      is inserted between `L` and the marker that follows it, so a last input line
      without a line terminator runs into `M118 P0 Zone 200`. */
  lemma ExpandLayerShape(L: string)
    ensures ExpandLayer(L) ==
            L
            + "M118 P0 Zone 200\n" + "G92 E0\n" + L
            + "M118 P0 Zone 400\n" + "G92 E0\n" + L
            + "M118 P0 Zone 600\n" + "G92 E0\n" + L
            + "M118 P0 Zone 800\n" + "G92 E0\n" + L
            + "M118 P0 Zone 0\n"
  {
    ExpandLayerPieces(L);
    ZoneMarkerTexts();
  }

  /** The fixed text a block adds around its five copies of the layer. */
  const Overhead: nat := 4 * |"M118 P0 Zone 200\n"| + 4 * |ResetLine| + |"M118 P0 Zone 0\n"|

  /** Reads the original layer text back out of a block: its first fifth, once the
      fixed overhead is taken away. */
  function LayerOf(block: string): string {
    if |block| < Overhead then "" else block[..(|block| - Overhead) / 5]
  }

  /** Expansion can be undone: the block determines the layer it was made from. */
  lemma LayerOfExpandLayer(L: string)
    ensures |ExpandLayer(L)| == 5 * |L| + Overhead
    ensures LayerOf(ExpandLayer(L)) == L
  {
    ExpandLayerShape(L);
  }

  /** Two layers expand to the same block only if they are the same layer. */
  lemma ExpandLayerInjective(a: string, b: string)
    requires ExpandLayer(a) == ExpandLayer(b)
    ensures a == b
  {
    LayerOfExpandLayer(a);
    LayerOfExpandLayer(b);
  }

  /** One expanded block per layer, in order. */
  function Blocks(layers: seq<seq<string>>): seq<string> {
    Map(Block, layers)
  }

  /** The block for one layer given as its lines. */
  function Block(layer: seq<string>): string {
    ExpandLayer(Flatten(layer))
  }

  /** The expanded text of all layers of the input. */
  function Body(lines: seq<string>): string {
    Flatten(Blocks(Segment(lines)))
  }

  /** The whole output document for the input lines. */
  function Transform(lines: seq<string>): string {
    GcodeHeader + "\n\n" + Body(lines) + "\n" + GcodeFooter
  }

  lemma BlocksAppend(layers: seq<seq<string>>, more: seq<seq<string>>)
    ensures Blocks(layers + more) == Blocks(layers) + Blocks(more)
  {
    MapAppend(Block, layers, more);
  }

  /** Empty input has no layers: the document is the header, three line terminators
      and the footer. */
  lemma TransformEmpty()
    ensures Transform([]) == GcodeHeader + "\n\n\n" + GcodeFooter
  {
    assert Body([]) == [] by {
      assert Segment([]) == [];
      assert Blocks([]) == [];
    }
    EmptyBetween(GcodeHeader, GcodeFooter);
  }

  lemma EmptyBetween(header: string, footer: string)
    ensures header + "\n\n" + [] + "\n" + footer == header + "\n\n\n" + footer
  {
    assert header + "\n\n" + [] == header + "\n\n";
    AppendAssoc(header, "\n\n", "\n");
  }

  /** Splitting the input right before a Z-move splits the expanded text there too:
      each part of the input is expanded on its own. */
  lemma BodySplitsAtBoundary(xs: seq<string>, ys: seq<string>)
    requires |ys| > 0 && IsZMove(ys[0])
    ensures Body(xs + ys) == Body(xs) + Body(ys)
  {
    SegmentSplitsAtBoundary(xs, ys, IsZMove);
    BlocksAppend(Segment(xs), Segment(ys));
    FlattenAppend(Blocks(Segment(xs)), Blocks(Segment(ys)));
  }

  /** The tail after the last Z-move, whatever it holds, is expanded exactly like
      every other layer. */
  lemma TailExpandedLikeAnyLayer(xs: seq<string>, tail: seq<string>)
    requires |tail| > 0 && IsZMove(tail[0])
    requires forall j :: 0 < j < |tail| ==> !IsZMove(tail[j])
    ensures Body(xs + tail) == Body(xs) + ExpandLayer(Flatten(tail))
  {
    BodySplitsAtBoundary(xs, tail);
    BodyOfOneLayer(tail);
  }

  lemma BodyOfOneLayer(tail: seq<string>)
    requires |tail| > 0
    requires forall j :: 0 < j < |tail| ==> !IsZMove(tail[j])
    ensures Body(tail) == ExpandLayer(Flatten(tail))
  {
    SingleLayer(tail, IsZMove);
    OneBlock(tail);
  }

  lemma OneBlock(layer: seq<string>)
    ensures Flatten(Blocks([layer])) == ExpandLayer(Flatten(layer))
  {
    assert Blocks([layer]) == [ExpandLayer(Flatten(layer))];
    FlattenSingle(ExpandLayer(Flatten(layer)));
  }

  /** Reading the layer back out of every block, in order, gives back the text of
      all the layers. */
  lemma ReadBack(layers: seq<seq<string>>)
    ensures var bs := Blocks(layers);
            Flatten(seq(|bs|, k requires 0 <= k < |bs| => LayerOf(bs[k]))) == Flatten(Flatten(layers))
  {
    var bs := Blocks(layers);
    var read := seq(|bs|, k requires 0 <= k < |bs| => LayerOf(bs[k]));
    forall k | 0 <= k < |bs|
      ensures read[k] == Flatten(layers[k])
    {
      LayerOfExpandLayer(Flatten(layers[k]));
    }
    assert read == seq(|layers|, k requires 0 <= k < |layers| => Flatten(layers[k]));
    FlattenNested(layers);
  }

  /** One block per Z-move line, plus one for the lines before the first Z-move; and
      reading the layer back out of every block, in order, gives back the input text
      with nothing dropped, duplicated or reordered. */
  lemma BlocksRecoverInput(lines: seq<string>)
    ensures |Blocks(Segment(lines))| == CountZ(lines, IsZMove) + Lead(lines, IsZMove)
    ensures var bs := Blocks(Segment(lines));
            Flatten(seq(|bs|, k requires 0 <= k < |bs| => LayerOf(bs[k]))) == Flatten(lines)
  {
    ReadBack(Segment(lines));
  }

  lemma CopiesStep(prefix: string, layer: string, i: nat)
    requires i >= 1
    ensures prefix + Copies(layer, i - 1) + ZoneMarker(i * 200) + ResetLine + layer
            == prefix + Copies(layer, i)
  {
    var c, m := Copies(layer, i - 1), ZoneMarker(i * 200);
    AppendAssoc(prefix, c + m + ResetLine, layer);
    AppendAssoc(prefix, c + m, ResetLine);
    AppendAssoc(prefix, c, m);
  }

  lemma BlockAfter(out: string, layer: string)
    ensures out + ExpandLayer(layer) == out + layer + Copies(layer, 4) + ZoneMarker(0)
  {
    var c, m := Copies(layer, 4), ZoneMarker(0);
    AppendAssoc(out, layer + c, m);
    AppendAssoc(out, layer, c);
  }

  /** Writes the block for one layer after `out`, the way both flushes of the
      source do: the layer, four numbered copies, the zone-0 marker. */
  method WriteBlock(out: string, layer: string) returns (r: string)
    ensures r == out + ExpandLayer(layer)
  {
    r := out + layer;
    var i := 1;
    while i < 5
      invariant 1 <= i <= 5
      invariant r == out + layer + Copies(layer, i - 1)
    {
      var distance := i * 200;
      CopiesStep(out + layer, layer, i);
      r := r + ZoneMarker(distance);
      r := r + ResetLine;
      r := r + layer;
      i := i + 1;
    }
    BlockAfter(out, layer);
    r := r + ZoneMarker(0);
  }

  /** Writing one more block extends the written text by that block's expansion. */
  lemma EmitStep(prefix: string, written: seq<seq<string>>, buffer: seq<string>)
    ensures prefix + Flatten(Blocks(written)) + ExpandLayer(Flatten(buffer))
            == prefix + Flatten(Blocks(written + [buffer]))
  {
    var e := ExpandLayer(Flatten(buffer));
    BlocksAppend(written, [buffer]);
    assert Blocks([buffer]) == [e];
    FlattenAppend(Blocks(written), [e]);
    FlattenSingle(e);
    AppendAssoc(prefix, Flatten(Blocks(written)), e);
  }

  /** The loop of `process_gcode_file` and its end-of-input flush: after the text
      `out0` already written, it writes the expanded layers of `lines`. */
  method WriteLayers(out0: string, lines: seq<string>) returns (out: string)
    ensures out == out0 + Body(lines)
  {
    out := out0;
    var buffer: seq<string> := [];
    ghost var written: seq<seq<string>> := [];
    for i := 0 to |lines|
      invariant Run(lines[..i], IsZMove) == Scan(written, buffer)
      invariant out == out0 + Flatten(Blocks(written))
    {
      var line := lines[i];
      RunNext(lines, i, IsZMove);
      if IsZMove(line) {
        if |buffer| > 0 {
          out := WriteBlock(out, Flatten(buffer));
          EmitStep(out0, written, buffer);
          written := written + [buffer];
        }
        buffer := [line];
      } else {
        buffer := buffer + [line];
      }
    }
    assert lines[..|lines|] == lines;
    SegmentIsLastFlush(lines, written, buffer);
    if |buffer| > 0 {
      out := WriteBlock(out, Flatten(buffer));
      EmitStep(out0, written, buffer);
      written := written + [buffer];
    }
  }

  /** `process_gcode_file` on the lines in memory: the header (itself ending in a
      line feed), two more line feeds, so two blank lines, the expanded layers, a
      line terminator and the footer; it writes exactly the
      document `Transform` describes. */
  method ProcessGcode(lines: seq<string>) returns (out: string)
    ensures out == Transform(lines)
  {
    out := WriteLayers(GcodeHeader + "\n\n", lines);
    out := out + "\n" + GcodeFooter;
  }
}
