/**
 * The text handling of the Flask endpoints in app.py. Both /extract_variables
 * and /solve flatten the equations text into equation lines, and
 * /extract_variables replies with a template of one `name = ` line per
 * unknown for the user to fill in with guesses.
 */
module App {
  import opened Text

  // ---------------------------------------------------------------------
  // Flattening the equations text

  /** raw.strip() split at "---", each block stripped and split into its
      lines. */
  function Blocks(raw: string): (bs: seq<seq<string>>)
    ensures |bs| == |Split(Strip(raw), "---")|
  {
    var parts := Split(Strip(raw), "---");
    seq(|parts|, k requires 0 <= k < |parts| => Split(Strip(parts[k]), "\n"))
  }

  /** The stripped lines that are not blank after stripping, in order. */
  function KeepLines(lines: seq<string>): seq<string> {
    if lines == [] then []
    else (if Strip(lines[0]) != [] then [Strip(lines[0])] else []) + KeepLines(lines[1..])
  }

  /** The comprehension `for block in eq_blocks for eq in block`. */
  function FlattenBlocks(bs: seq<seq<string>>): seq<string> {
    if bs == [] then [] else KeepLines(bs[0]) + FlattenBlocks(bs[1..])
  }

  /** The equations both endpoints pass on to the solver. */
  function Flatten(raw: string): seq<string> {
    FlattenBlocks(Blocks(raw))
  }

  /** All lines of all blocks, in order. */
  function Concat(bs: seq<seq<string>>): seq<string> {
    if bs == [] then [] else bs[0] + Concat(bs[1..])
  }

  lemma {:induction false} KeepLinesAppend(a: seq<string>, b: seq<string>)
    ensures KeepLines(a + b) == KeepLines(a) + KeepLines(b)
  {
    if a != [] {
      assert (a + b)[1..] == a[1..] + b;
      KeepLinesAppend(a[1..], b);
      var head := if Strip(a[0]) != [] then [Strip(a[0])] else [];
      ConcatAssoc(head, KeepLines(a[1..]), KeepLines(b));
    } else {
      assert a + b == b;
    }
  }

  /** Flattening keeps the non-blank lines of the blocks, stripped, in the
      order the blocks and their lines come. */
  lemma {:induction false} FlattenIsConcatenation(bs: seq<seq<string>>)
    ensures FlattenBlocks(bs) == KeepLines(Concat(bs))
  {
    if bs != [] {
      FlattenIsConcatenation(bs[1..]);
      KeepLinesAppend(bs[0], Concat(bs[1..]));
    }
  }

  /** A line is a kept equation: non-empty, stripped, a single line and
      without the block separator. */
  predicate IsEquationLine(e: string) {
    e != [] && IsTrimmed(e) && '\n' !in e && Free(e, "---")
  }

  lemma {:induction false} KeepLinesShape(lines: seq<string>)
    requires forall l :: l in lines ==> '\n' !in l && Free(l, "---")
    ensures forall e :: e in KeepLines(lines) ==> IsEquationLine(e)
  {
    if lines != [] {
      KeepLinesShape(lines[1..]);
      StripChars(lines[0], '\n');
      StripKeepsFree(lines[0], "---");
    }
  }

  /** The lines of one block are single lines without the separator. */
  lemma BlockLinesShape(block: string)
    requires Free(block, "---")
    ensures forall l :: l in Split(Strip(block), "\n") ==> '\n' !in l && Free(l, "---")
  {
    var b := Strip(block);
    StripKeepsFree(block, "---");
    assert "\n" == ['\n'];
    SplitPartsFree(b, "\n");
    SplitKeepsFree(b, "\n", "---");
    forall l | l in Split(b, "\n") ensures '\n' !in l {
      FreeChar(l, '\n');
    }
  }

  lemma {:induction false} FlattenBlocksShape(bs: seq<seq<string>>)
    requires forall k, l :: 0 <= k < |bs| && l in bs[k] ==> '\n' !in l && Free(l, "---")
    ensures forall e :: e in FlattenBlocks(bs) ==> IsEquationLine(e)
  {
    if bs != [] {
      KeepLinesShape(bs[0]);
      assert forall k, l :: 0 <= k < |bs| - 1 && l in bs[1..][k] ==> l in bs[k + 1];
      FlattenBlocksShape(bs[1..]);
    }
  }

  /** Every equation passed on is non-empty, stripped, a single line and
      free of the block separator. */
  lemma FlattenShape(raw: string)
    ensures forall e :: e in Flatten(raw) ==> IsEquationLine(e)
  {
    var parts := Split(Strip(raw), "---");
    var bs := Blocks(raw);
    SplitPartsFree(Strip(raw), "---");
    forall k | 0 <= k < |bs|
      ensures forall l :: l in bs[k] ==> '\n' !in l && Free(l, "---")
    {
      assert parts[k] in parts;
      BlockLinesShape(parts[k]);
    }
    FlattenBlocksShape(bs);
  }

  /** A line that is already an equation line passes through unchanged,
      comments and all: there is no '#' handling here. */
  lemma SingleLinePassesThrough(line: string)
    requires IsEquationLine(line)
    ensures Flatten(line) == [line]
  {
    assert Strip(line) == line by {
      assert line == [] + line + [];
      StripUnique(line, [], line, []);
    }
    assert Split(line, "---") == [line] by {
      SplitFree(line, "---");
    }
    assert Split(line, "\n") == [line] by {
      assert "\n" == ['\n'];
      SplitAbsent(line, '\n');
    }
    assert Blocks(line) == [[line]];
    assert KeepLines([line]) == [line] by {
      assert [line][1..] == [];
    }
    assert FlattenBlocks([[line]]) == KeepLines([line]) + FlattenBlocks([]) by {
      assert [[line]][1..] == [];
    }
  }

  // ---------------------------------------------------------------------
  // The reply of /extract_variables

  /** One line `k = ` per unknown, each ended by a newline. */
  function Template(vars: seq<string>): string {
    if vars == [] then "" else vars[0] + " = \n" + Template(vars[1..])
  }

  lemma {:induction false} TemplateAppend(vars: seq<string>, v: string)
    ensures Template(vars + [v]) == Template(vars) + v + " = \n"
  {
    if vars == [] {
      assert vars + [v] == [v];
      assert [v][1..] == [];
    } else {
      assert (vars + [v])[1..] == vars[1..] + [v];
      TemplateAppend(vars[1..], v);
    }
  }

  /** The loop building output_str. */
  method ExtractionReply(vars: seq<string>) returns (reply: string)
    ensures reply == Template(vars)
  {
    reply := "";
    for i := 0 to |vars|
      invariant reply == Template(vars[..i])
    {
      assert vars[..i + 1] == vars[..i] + [vars[i]];
      TemplateAppend(vars[..i], vars[i]);
      reply := reply + vars[i] + " = \n";
    }
    assert vars[..|vars|] == vars;
  }

  lemma SeqOfLinesCons(vars: seq<string>)
    requires vars != []
    ensures seq(|vars|, k requires 0 <= k < |vars| => vars[k] + " = ") ==
      [vars[0] + " = "] + seq(|vars| - 1, k requires 0 <= k < |vars| - 1 => vars[1..][k] + " = ")
  {
  }

  /** The reply has exactly one line `k = ` per unknown, in the order given,
      and ends with a newline. */
  lemma {:induction false} TemplateLines(vars: seq<string>)
    requires forall k :: 0 <= k < |vars| ==> '\n' !in vars[k]
    ensures Split(Template(vars), "\n") ==
      seq(|vars|, k requires 0 <= k < |vars| => vars[k] + " = ") + [""]
  {
    assert "\n" == ['\n'];
    if vars == [] {
      assert Find("", "\n") == 0;
    } else {
      var rest := vars[1..];
      var head := vars[0] + " = ";
      assert '\n' !in head;
      assert Template(vars) == head + ['\n'] + Template(rest);
      SplitCons(Template(vars), '\n', head, Template(rest));
      assert forall k :: 0 <= k < |rest| ==> rest[k] == vars[k + 1];
      TemplateLines(rest);
      SeqOfLinesCons(vars);
    }
  }

  /** The same, line by line. */
  lemma TemplateLinesAt(vars: seq<string>)
    requires forall k :: 0 <= k < |vars| ==> '\n' !in vars[k]
    ensures var lines := Split(Template(vars), "\n");
      |lines| == |vars| + 1 && lines[|vars|] == "" &&
      forall i :: 0 <= i < |vars| ==> lines[i] == vars[i] + " = "
  {
    TemplateLines(vars);
  }
}
