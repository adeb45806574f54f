/**
 * The two pieces of browser-side text handling in static/script.js: joining
 * several uploaded equation files into the equations box, and parsing the
 * `name = value` lines of the initial-guesses box into the mapping sent to
 * /solve.
 */
module Script {
  import opened Wrappers
  import opened Text
  import opened App

  // ---------------------------------------------------------------------
  // Joining uploaded files

  /** The separator put between two files; the back end splits at "---". */
  const FileSeparator := "\n---\n"

  /** The files' contents, trimmed, in file-index order, joined with the
      separator. */
  function Combined(files: seq<string>): string {
    Join(seq(|files|, k requires 0 <= k < |files| => Strip(files[k])), FileSeparator)
  }

  /** The order in which the readers finish: every file index once. */
  predicate IsCompletionOrder(order: seq<nat>, n: nat) {
    |order| == n &&
    (forall j :: 0 <= j < n ==> order[j] < n) &&
    (forall i :: 0 <= i < n ==> i in order)
  }

  /** The change handler of the equation-file input: each reader stores its
      file's trimmed contents at the file's index as it finishes, in the
      completion order given, and the one that finishes last joins them.
      With no files selected nothing is written. */
  method CombineFiles(files: seq<string>, order: seq<nat>) returns (combined: Option<string>)
    requires IsCompletionOrder(order, |files|)
    ensures files == [] ==> combined == None
    ensures files != [] ==> combined == Some(Combined(files))
  {
    if |files| == 0 {
      return None;
    }
    var contents := new string[|files|];
    var loaded := 0;
    combined := None;
    while loaded < |files|
      invariant 0 <= loaded <= |files|
      invariant forall j :: 0 <= j < loaded ==> contents[order[j]] == Strip(files[order[j]])
      invariant loaded < |files| ==> combined == None
      invariant loaded == |files| ==> combined == Some(Combined(files))
    {
      var i := order[loaded];
      contents[i] := Strip(files[i]);
      loaded := loaded + 1;
      if loaded == |files| {
        AllStored(files, order, contents[..]);
        combined := Some(Join(contents[..], FileSeparator));
      }
    }
  }

  /** Once every reader in the completion order has stored its file, each
      slot holds its own file's trimmed contents. */
  lemma AllStored(files: seq<string>, order: seq<nat>, contents: seq<string>)
    requires IsCompletionOrder(order, |files|) && |contents| == |files|
    requires forall j :: 0 <= j < |files| ==> contents[order[j]] == Strip(files[order[j]])
    ensures contents == seq(|files|, k requires 0 <= k < |files| => Strip(files[k]))
  {
    forall k | 0 <= k < |files| ensures contents[k] == Strip(files[k]) {
      assert k in order;
      var j :| 0 <= j < |order| && order[j] == k;
    }
  }

  // ---------------------------------------------------------------------
  // Parsing the initial guesses

  /** JavaScript's parseFloat; None where it gives NaN. */
  type FloatParser = string -> Option<real>

  /** The entry a line of the guesses box offers: the trimmed text left of
      its only '=' and the parse of the trimmed text right of it; None when
      splitting at '=' does not give two parts or the value is NaN. */
  function LineGuess(line: string, parse: FloatParser): Option<(string, real)> {
    var parts := Split(line, "=");
    if |parts| != 2 then None
    else
      match parse(Strip(parts[1]))
      case None => None
      case Some(v) => Some((Strip(parts[0]), v))
  }

  /** `initial_guesses[key] = value` on a plain object; assigning a number
      to "__proto__" adds no entry. */
  function Assign(guesses: map<string, real>, entry: Option<(string, real)>): map<string, real> {
    if entry.None? || entry.value.0 == "__proto__" then guesses
    else guesses[entry.value.0 := entry.value.1]
  }

  /** The forEach over the lines, from the mapping built so far. */
  function ParseLines(guesses: map<string, real>, lines: seq<string>, parse: FloatParser): map<string, real>
    decreases |lines|
  {
    if lines == [] then guesses
    else ParseLines(Assign(guesses, LineGuess(lines[0], parse)), lines[1..], parse)
  }

  /** The mapping sent to /solve for the guesses text. */
  function ParseGuesses(text: string, parse: FloatParser): map<string, real> {
    ParseLines(map[], Split(text, "\n"), parse)
  }

  /** The click handler's parse loop. */
  method ParseGuessText(text: string, parse: FloatParser) returns (guesses: map<string, real>)
    ensures guesses == ParseGuesses(text, parse)
  {
    var lines := Split(text, "\n");
    guesses := map[];
    for i := 0 to |lines|
      invariant ParseLines(guesses, lines[i..], parse) == ParseGuesses(text, parse)
    {
      var line := lines[i];
      assert lines[i..][1..] == lines[i + 1..];
      var parts := Split(line, "=");
      if |parts| == 2 {
        var key := Strip(parts[0]);
        var value := parse(Strip(parts[1]));
        if value.Some? && key != "__proto__" {
          guesses := guesses[key := value.value];
        }
      }
    }
  }

  /** The line offers key `k` and is assigned. */
  predicate Contributes(line: string, k: string, parse: FloatParser) {
    var g := LineGuess(line, parse);
    g.Some? && g.value.0 == k && k != "__proto__"
  }

  lemma {:induction false} ParseLinesAppend(g: map<string, real>, a: seq<string>, b: seq<string>, parse: FloatParser)
    ensures ParseLines(g, a + b, parse) == ParseLines(ParseLines(g, a, parse), b, parse)
    decreases |a|
  {
    if a != [] {
      assert (a + b)[1..] == a[1..] + b;
      ParseLinesAppend(Assign(g, LineGuess(a[0], parse)), a[1..], b, parse);
    } else {
      assert a + b == b;
    }
  }

  /** A later line with the same key overwrites the earlier entry. */
  lemma LaterLineWins(g: map<string, real>, lines: seq<string>, line: string, parse: FloatParser)
    requires LineGuess(line, parse).Some? && LineGuess(line, parse).value.0 != "__proto__"
    ensures var r := ParseLines(g, lines + [line], parse);
      var k := LineGuess(line, parse).value.0;
      k in r && r[k] == LineGuess(line, parse).value.1
  {
    ParseLinesAppend(g, lines, [line], parse);
    assert [line][1..] == [];
  }

  /** A key is in the mapping exactly when it was there already or some
      line contributes it. */
  lemma {:induction false} EntriesExactly(g: map<string, real>, lines: seq<string>, parse: FloatParser, k: string)
    ensures k in ParseLines(g, lines, parse) <==>
      k in g || exists i :: 0 <= i < |lines| && Contributes(lines[i], k, parse)
    decreases |lines|
  {
    if lines != [] {
      var g1 := Assign(g, LineGuess(lines[0], parse));
      EntriesExactly(g1, lines[1..], parse, k);
      assert k in g1 <==> k in g || Contributes(lines[0], k, parse);
      if exists i :: 0 <= i < |lines| && Contributes(lines[i], k, parse) {
        var i :| 0 <= i < |lines| && Contributes(lines[i], k, parse);
        if i > 0 {
          assert lines[1..][i - 1] == lines[i];
        }
      }
      if exists i :: 0 <= i < |lines| - 1 && Contributes(lines[1..][i], k, parse) {
        var i :| 0 <= i < |lines| - 1 && Contributes(lines[1..][i], k, parse);
        assert lines[i + 1] == lines[1..][i];
      }
    }
  }

  /** Only a line with a single '=' contributes, and its key is the
      trimmed text before that '='. */
  lemma ContributorHasOneEquals(line: string, k: string, parse: FloatParser)
    requires Contributes(line, k, parse)
    ensures multiset(line)['='] == 1
    ensures k == Strip(BeforeFirst(line, '='))
  {
    assert "=" == ['='];
    TwoPartsExactly(line, '=');
  }

  /** A line with a single '=' offers the trimmed left side as its key and
      the parse of the trimmed right side as its value. */
  lemma FilledLine(name: string, value: string, parse: FloatParser)
    requires '=' !in name && '=' !in value
    ensures var p := parse(Strip(value));
      LineGuess(name + "=" + value, parse) ==
        if p.Some? then Some((Strip(name), p.value)) else None
  {
    assert "=" == ['='];
    SplitAtOnly(name + "=" + value, '=', name, value);
  }

  /** Lines that offer nothing leave the mapping as it is. */
  lemma {:induction false} NothingOffered(g: map<string, real>, lines: seq<string>, parse: FloatParser)
    requires forall i :: 0 <= i < |lines| ==> LineGuess(lines[i], parse).None?
    ensures ParseLines(g, lines, parse) == g
    decreases |lines|
  {
    if lines != [] {
      assert forall i :: 0 <= i < |lines| - 1 ==> lines[1..][i] == lines[i + 1];
      NothingOffered(g, lines[1..], parse);
    }
  }

  /** An unfilled template line `k = ` offers nothing. */
  lemma UnfilledLine(name: string, parse: FloatParser)
    requires parse("") == None && '=' !in name
    ensures LineGuess(name + " = ", parse).None?
  {
    assert name + " = " == (name + " ") + "=" + " ";
    FilledLine(name + " ", " ", parse);
    StripUnique(" ", " ", [], []);
  }

  /** Sending the reply of /extract_variables back untouched gives no
      guesses: each `k = ` line has an empty right side, which parses to
      NaN, and the final empty line has no '='. */
  lemma UnfilledTemplateGivesNothing(vars: seq<string>, parse: FloatParser)
    requires parse("") == None
    requires forall k :: 0 <= k < |vars| ==> '\n' !in vars[k] && '=' !in vars[k]
    ensures ParseGuesses(Template(vars), parse) == map[]
  {
    var lines := Split(Template(vars), "\n");
    TemplateLinesAt(vars);
    assert LineGuess("", parse).None? by {
      SplitAbsent("", '=');
      assert "=" == ['='];
    }
    forall i | 0 <= i < |lines| ensures LineGuess(lines[i], parse).None? {
      if i < |vars| {
        UnfilledLine(vars[i], parse);
      } else {
        assert i == |vars|;
      }
    }
    NothingOffered(map[], lines, parse);
  }

  /** An empty guesses box still sends a mapping, the empty one, and not
      None. */
  lemma EmptyBoxSendsEmptyMapping(parse: FloatParser)
    ensures ParseGuesses("", parse) == map[]
  {
    assert "\n" == ['\n'];
    SplitAbsent("", '\n');
    assert "=" == ['='];
    SplitAbsent("", '=');
    assert LineGuess("", parse).None?;
    NothingOffered(map[], [""], parse);
  }
}
