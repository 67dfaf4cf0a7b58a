/** The coastline converter: a GSHHS text export, one `lon<TAB>lat` pair
    per line after a three-line header, flattened into one list of
    numbers. Number parsing is a parameter. */
module GenerateMap {
  import opened Wrappers

  /** Lines of the export before the first point. */
  const HEADER_SIZE: nat := 3

  /** The panic message for a line that is not a pair. */
  function ErrorMessage(line: string): string {
    "Can't parse '" + line + "' into [f32; 2]"
  }

  // ------------------------------------------------------------ the line

  /** `replace(" ", "")`: every space deleted, nothing else changed. */
  function RemoveSpaces(s: string): (r: string)
    ensures ' ' !in r && |r| <= |s|
  {
    if s == [] then []
    else
      assert s == [s[0]] + s[1..];
      (if s[0] == ' ' then [] else [s[0]]) + RemoveSpaces(s[1..])
  }

  /** Deleting spaces distributes over concatenation. */
  lemma {:induction false} RemoveSpacesAppend(a: string, b: string)
    ensures RemoveSpaces(a + b) == RemoveSpaces(a) + RemoveSpaces(b)
  {
    if a == [] {
      assert a + b == b;
    } else {
      assert (a + b)[0] == a[0] && (a + b)[1..] == a[1..] + b;
      RemoveSpacesAppend(a[1..], b);
      var h := if a[0] == ' ' then [] else [a[0]];
      assert RemoveSpaces(a + b) == h + (RemoveSpaces(a[1..]) + RemoveSpaces(b));
    }
  }

  /** A string is left as it is exactly when it has no space, so deleting
      twice is deleting once. */
  lemma {:induction false} RemoveSpacesNoop(s: string)
    ensures RemoveSpaces(s) == s <==> ' ' !in s
  {
    if s != [] {
      RemoveSpacesNoop(s[1..]);
      if s[0] != ' ' {
        assert s == [s[0]] + s[1..];
      } else {
        assert ' ' in s;
      }
    }
  }

  /** `split(sep)`: the pieces between separators, at least one, possibly
      empty. */
  function Split(s: string, sep: char): (fields: seq<string>)
    ensures |fields| >= 1
    ensures forall i :: 0 <= i < |fields| ==> sep !in fields[i]
  {
    if s == [] then [""]
    else
      var rest := Split(s[1..], sep);
      if s[0] == sep then [""] + rest
      else [[s[0]] + rest[0]] + rest[1..]
  }

  /** The pieces put back together with the separator between them. */
  function Join(fields: seq<string>, sep: char): string
    requires |fields| >= 1
  {
    if |fields| == 1 then fields[0] else fields[0] + [sep] + Join(fields[1..], sep)
  }

  /** Splitting loses nothing: joining the pieces gives the string back. */
  lemma {:induction false} JoinSplit(s: string, sep: char)
    ensures Join(Split(s, sep), sep) == s
  {
    if s != [] {
      JoinSplit(s[1..], sep);
      var rest := Split(s[1..], sep);
      if s[0] == sep {
        assert ([""] + rest)[1..] == rest;
      } else {
        var f := [[s[0]] + rest[0]] + rest[1..];
        if |rest| > 1 {
          assert f[1..] == rest[1..];
          assert Join(rest, sep) == rest[0] + [sep] + Join(rest[1..], sep);
        }
        assert s == [s[0]] + s[1..];
      }
    }
  }

  /** A separator-free piece followed by the separator is split off first. */
  lemma {:induction false} SplitCons(x: string, sep: char, rest: string)
    requires sep !in x
    ensures Split(x + [sep] + rest, sep) == [x] + Split(rest, sep)
  {
    if x == [] {
      assert x + [sep] + rest == [sep] + rest;
      assert ([sep] + rest)[1..] == rest;
    } else {
      assert (x + [sep] + rest)[1..] == x[1..] + [sep] + rest;
      SplitCons(x[1..], sep, rest);
      assert [x[0]] + x[1..] == x;
    }
  }

  /** Without a separator the string is one piece. */
  lemma {:induction false} SplitNone(x: string, sep: char)
    requires sep !in x
    ensures Split(x, sep) == [x]
  {
    if x != [] {
      SplitNone(x[1..], sep);
      assert [x[0]] + x[1..] == x;
    }
  }

  /** And joining separator-free pieces splits back into the same pieces. */
  lemma {:induction false} SplitJoin(fields: seq<string>, sep: char)
    requires |fields| >= 1
    requires forall i :: 0 <= i < |fields| ==> sep !in fields[i]
    ensures Split(Join(fields, sep), sep) == fields
    decreases |fields|
  {
    if |fields| == 1 {
      SplitNone(fields[0], sep);
    } else {
      SplitJoin(fields[1..], sep);
      SplitCons(fields[0], sep, Join(fields[1..], sep));
      assert [fields[0]] + fields[1..] == fields;
    }
  }

  /** `split_line`: spaces deleted, split on tabs, and the first two pieces
      parsed in order; a missing piece or one that does not parse is the
      panic, carrying the line as it came in. Later pieces are never
      looked at. */
  function SplitLine(line: string, parse: string -> Option<real>): (r: Result<(real, real), string>)
    ensures r.Err? ==> r.error == ErrorMessage(line)
  {
    var fields := Split(RemoveSpaces(line), '\t');
    match parse(fields[0])
    case None => Err(ErrorMessage(line))
    case Some(lon) =>
      if |fields| < 2 then Err(ErrorMessage(line))
      else
        match parse(fields[1])
        case None => Err(ErrorMessage(line))
        case Some(lat) => Ok((lon, lat))
  }

  /** A line is a pair exactly when, spaces deleted, it has at least two
      tab-separated pieces and the first two parse; the pair is those two
      numbers in order. */
  lemma SplitLineMeaning(line: string, parse: string -> Option<real>)
    ensures var fields := Split(RemoveSpaces(line), '\t');
            SplitLine(line, parse).Ok? <==> |fields| >= 2 && parse(fields[0]).Some? && parse(fields[1]).Some?
    ensures var fields := Split(RemoveSpaces(line), '\t');
            SplitLine(line, parse).Ok? ==> SplitLine(line, parse).value == (parse(fields[0]).value, parse(fields[1]).value)
  {
  }

  /** Deleting spaces around a tab. */
  lemma RemoveSpacesTab(x: string, y: string)
    ensures RemoveSpaces(x + "\t" + y) == RemoveSpaces(x) + "\t" + RemoveSpaces(y)
  {
    RemoveSpacesAppend(x + "\t", y);
    RemoveSpacesAppend(x, "\t");
    assert RemoveSpaces("\t") == "\t";
  }

  /** Deleting spaces adds no tab. */
  lemma {:induction false} TabFree(x: string)
    requires '\t' !in x
    ensures '\t' !in RemoveSpaces(x)
  {
    if x != [] {
      assert '\t' !in x[1..];
      TabFree(x[1..]);
    }
  }

  /** Two numbers with a tab between them, spaces anywhere, read back as
      the pair they spell. */
  lemma SplitLinePair(x: string, y: string, parse: string -> Option<real>)
    requires '\t' !in x && '\t' !in y
    requires parse(RemoveSpaces(x)).Some? && parse(RemoveSpaces(y)).Some?
    ensures SplitLine(x + "\t" + y, parse) == Ok((parse(RemoveSpaces(x)).value, parse(RemoveSpaces(y)).value))
  {
    TabFree(x);
    TabFree(y);
    RemoveSpacesTab(x, y);
    SplitTwo(RemoveSpaces(x), RemoveSpaces(y));
  }

  /** Two tab-free pieces around a tab split into those two. */
  lemma SplitTwo(x: string, y: string)
    requires '\t' !in x && '\t' !in y
    ensures Split(x + "\t" + y, '\t') == [x, y]
  {
    SplitCons(x, '\t', y);
    SplitNone(y, '\t');
  }

  /** A third piece, whatever it holds, changes nothing. */
  lemma SplitLineExtraField(x: string, y: string, z: string, parse: string -> Option<real>)
    requires '\t' !in x && '\t' !in y
    ensures SplitLine(x + "\t" + y + "\t" + z, parse).Ok? <==> SplitLine(x + "\t" + y, parse).Ok?
    ensures SplitLine(x + "\t" + y, parse).Ok? ==>
              SplitLine(x + "\t" + y + "\t" + z, parse).value == SplitLine(x + "\t" + y, parse).value
  {
    TabFree(x);
    TabFree(y);
    var x', y' := RemoveSpaces(x), RemoveSpaces(y);
    RemoveSpacesTab(x + "\t" + y, z);
    RemoveSpacesTab(x, y);
    SplitThree(x', y', RemoveSpaces(z));
    SplitTwo(x', y');
  }

  /** With a third piece the first two come first. */
  lemma SplitThree(x: string, y: string, z: string)
    requires '\t' !in x && '\t' !in y
    ensures var f := Split(x + "\t" + y + "\t" + z, '\t'); |f| >= 3 && f[0] == x && f[1] == y
  {
    assert x + "\t" + y + "\t" + z == x + ['\t'] + (y + ['\t'] + z);
    SplitCons(x, '\t', y + ['\t'] + z);
    SplitCons(y, '\t', z);
  }

  /** A line with no tab is never a pair. */
  lemma SplitLineOneField(x: string, parse: string -> Option<real>)
    requires '\t' !in x
    ensures SplitLine(x, parse) == Err(ErrorMessage(x))
  {
    TabFree(x);
    SplitNone(RemoveSpaces(x), '\t');
  }

  /** Spaces in the line do not change the pair read from it. */
  lemma SplitLineSpaces(line: string, parse: string -> Option<real>)
    ensures SplitLine(line, parse).Ok? <==> SplitLine(RemoveSpaces(line), parse).Ok?
    ensures SplitLine(line, parse).Ok? ==> SplitLine(line, parse).value == SplitLine(RemoveSpaces(line), parse).value
  {
    RemoveSpacesNoop(RemoveSpaces(line));
  }

  // -------------------------------------------------------- the pipeline

  /** `filter_map(|result| result.ok())`: the lines that could be read, in
      order. */
  function Readable(results: seq<Option<string>>): (lines: seq<string>)
    ensures |lines| <= |results|
  {
    if results == [] then []
    else (if results[0].Some? then [results[0].value] else []) + Readable(results[1..])
  }

  lemma {:induction false} ReadableAppend(a: seq<Option<string>>, b: seq<Option<string>>)
    ensures Readable(a + b) == Readable(a) + Readable(b)
  {
    if a == [] {
      assert a + b == b;
    } else {
      assert (a + b)[0] == a[0] && (a + b)[1..] == a[1..] + b;
      ReadableAppend(a[1..], b);
      var h := if a[0].Some? then [a[0].value] else [];
      assert Readable(a + b) == h + (Readable(a[1..]) + Readable(b));
    }
  }

  /** Failed reads are dropped and nothing else is. */
  lemma {:induction false} ReadableAllRead(results: seq<Option<string>>)
    requires forall i :: 0 <= i < |results| ==> results[i].Some?
    ensures |Readable(results)| == |results|
    ensures forall i :: 0 <= i < |results| ==> Readable(results)[i] == results[i].value
  {
    if results != [] {
      ReadableAllRead(results[1..]);
    }
  }

  lemma ReadableFailed(results: seq<Option<string>>)
    requires forall i :: 0 <= i < |results| ==> results[i].None?
    ensures Readable(results) == []
  {
  }

  /** `skip(n)`: everything after the first `n`, or nothing. */
  function Skip<T>(s: seq<T>, n: nat): (r: seq<T>)
    ensures |r| == if |s| <= n then 0 else |s| - n
    ensures forall i :: 0 <= i < |r| ==> r[i] == s[n + i]
  {
    if |s| <= n then [] else s[n..]
  }

  /** The lines holding points. */
  function DataLines(results: seq<Option<string>>): seq<string> {
    Skip(Readable(results), HEADER_SIZE)
  }

  /** `flat_map(split_line)` collected: every line's pair in line order;
      the first line that is not a pair aborts with its message. */
  function Pairs(lines: seq<string>, pairOf: string -> Result<(real, real), string>): Result<seq<real>, string> {
    if lines == [] then Ok([])
    else
      match pairOf(lines[0])
      case Err(e) => Err(e)
      case Ok(p) =>
        match Pairs(lines[1..], pairOf)
        case Err(e) => Err(e)
        case Ok(rest) => Ok([p.0, p.1] + rest)
  }

  /** `split_line` with a given number parser, as one function of the line. */
  function SplitLineWith(parse: string -> Option<real>): string -> Result<(real, real), string> {
    line => SplitLine(line, parse)
  }

  /** The whole conversion of `main`, short of the file handling. */
  function Convert(results: seq<Option<string>>, parse: string -> Option<real>): Result<seq<real>, string> {
    Pairs(DataLines(results), SplitLineWith(parse))
  }

  /** The conversion succeeds exactly when every data line is a pair. */
  lemma {:induction false} PairsOk(lines: seq<string>, pairOf: string -> Result<(real, real), string>)
    ensures Pairs(lines, pairOf).Ok? <==> forall i :: 0 <= i < |lines| ==> pairOf(lines[i]).Ok?
  {
    if lines != [] {
      PairsOk(lines[1..], pairOf);
      if pairOf(lines[0]).Ok? && !Pairs(lines[1..], pairOf).Ok? {
        var j :| 0 <= j < |lines[1..]| && !pairOf(lines[1..][j]).Ok?;
        assert lines[1..][j] == lines[j + 1];
      }
      if forall i :: 0 <= i < |lines| ==> pairOf(lines[i]).Ok? {
        forall i | 0 <= i < |lines[1..]|
          ensures pairOf(lines[1..][i]).Ok?
        {
          assert lines[1..][i] == lines[i + 1];
        }
      }
    }
  }

  /** The output then holds two numbers per line, longitude before
      latitude, line after line. */
  lemma {:induction false} PairsValues(lines: seq<string>, pairOf: string -> Result<(real, real), string>)
    requires Pairs(lines, pairOf).Ok?
    ensures |Pairs(lines, pairOf).value| == 2 * |lines|
    ensures forall i :: 0 <= i < |lines| ==>
              pairOf(lines[i]).Ok? &&
              Pairs(lines, pairOf).value[2 * i] == pairOf(lines[i]).value.0 &&
              Pairs(lines, pairOf).value[2 * i + 1] == pairOf(lines[i]).value.1
  {
    if lines != [] {
      PairsValues(lines[1..], pairOf);
      var rest := Pairs(lines[1..], pairOf).value;
      var out := Pairs(lines, pairOf).value;
      forall i | 0 <= i < |lines|
        ensures pairOf(lines[i]).Ok?
        ensures out[2 * i] == pairOf(lines[i]).value.0
        ensures out[2 * i + 1] == pairOf(lines[i]).value.1
      {
        if i > 0 {
          assert lines[1..][i - 1] == lines[i];
          assert out[2 * i] == rest[2 * (i - 1)];
          assert out[2 * i + 1] == rest[2 * (i - 1) + 1];
        }
      }
    }
  }

  /** On failure the message names the first data line that is not a
      pair. */
  lemma {:induction false} PairsErr(lines: seq<string>, pairOf: string -> Result<(real, real), string>)
    requires Pairs(lines, pairOf).Err?
    ensures exists j :: 0 <= j < |lines| && pairOf(lines[j]).Err? &&
              (forall i :: 0 <= i < j ==> pairOf(lines[i]).Ok?) &&
              Pairs(lines, pairOf).error == pairOf(lines[j]).error
  {
    if pairOf(lines[0]).Ok? {
      PairsErr(lines[1..], pairOf);
      var j :| 0 <= j < |lines[1..]| && pairOf(lines[1..][j]).Err? &&
                (forall i :: 0 <= i < j ==> pairOf(lines[1..][i]).Ok?) &&
                Pairs(lines[1..], pairOf).error == pairOf(lines[1..][j]).error;
      forall i | 0 <= i < j + 1
        ensures pairOf(lines[i]).Ok?
      {
        if i > 0 {
          assert lines[i] == lines[1..][i - 1];
        }
      }
      assert lines[j + 1] == lines[1..][j];
    } else {
      assert pairOf(lines[0]).Err?;
    }
  }

  /** Converting two runs of lines is converting each and concatenating. */
  lemma {:induction false} PairsAppend(a: seq<string>, b: seq<string>, pairOf: string -> Result<(real, real), string>)
    requires Pairs(a, pairOf).Ok? && Pairs(b, pairOf).Ok?
    ensures Pairs(a + b, pairOf) == Ok(Pairs(a, pairOf).value + Pairs(b, pairOf).value)
  {
    if a != [] {
      PairsAppend(a[1..], b, pairOf);
      assert a == [a[0]] + a[1..];
      assert a + b == [a[0]] + (a[1..] + b);
      PairsCons(a[0], a[1..], pairOf);
      PairsCons(a[0], a[1..] + b, pairOf);
      var p := pairOf(a[0]).value;
      var r, t := Pairs(a[1..], pairOf).value, Pairs(b, pairOf).value;
      assert [p.0, p.1] + (r + t) == ([p.0, p.1] + r) + t;
    } else {
      assert a + b == b;
      assert Pairs(a, pairOf).value + Pairs(b, pairOf).value == Pairs(b, pairOf).value;
    }
  }

  /** One line in front of a run that converts. */
  lemma PairsCons(line: string, rest: seq<string>, pairOf: string -> Result<(real, real), string>)
    requires pairOf(line).Ok? && Pairs(rest, pairOf).Ok?
    ensures var p := pairOf(line).value;
            Pairs([line] + rest, pairOf) == Ok([p.0, p.1] + Pairs(rest, pairOf).value)
  {
    assert ([line] + rest)[0] == line && ([line] + rest)[1..] == rest;
  }

  /** The first three readable lines are the header and never parsed:
      whatever they hold, the data is what follows them. */
  lemma HeaderSkipped(header: seq<Option<string>>, body: seq<Option<string>>, parse: string -> Option<real>)
    requires |Readable(header)| == HEADER_SIZE
    ensures DataLines(header + body) == Readable(body)
    ensures Convert(header + body, parse) == Pairs(Readable(body), SplitLineWith(parse))
  {
    ReadableAppend(header, body);
    var all := Readable(header) + Readable(body);
    assert all[HEADER_SIZE..] == Readable(body);
  }

  /** A file that is no more than its header converts to nothing. */
  lemma HeaderOnly(results: seq<Option<string>>, parse: string -> Option<real>)
    requires |Readable(results)| <= HEADER_SIZE
    ensures Convert(results, parse) == Ok([])
  {
  }

  /** A successful conversion holds two numbers per data line. */
  lemma ConvertLength(results: seq<Option<string>>, parse: string -> Option<real>)
    requires Convert(results, parse).Ok?
    ensures |Readable(results)| >= HEADER_SIZE ==>
              |Convert(results, parse).value| == 2 * (|Readable(results)| - HEADER_SIZE)
    ensures |Readable(results)| < HEADER_SIZE ==> Convert(results, parse).value == []
  {
    PairsValues(DataLines(results), SplitLineWith(parse));
  }

  /** A failed conversion reports the first data line that is not a pair,
      as the line was read. */
  lemma ConvertErr(results: seq<Option<string>>, parse: string -> Option<real>)
    requires Convert(results, parse).Err?
    ensures var lines := DataLines(results);
            exists j :: 0 <= j < |lines| && SplitLine(lines[j], parse).Err? &&
              (forall i :: 0 <= i < j ==> SplitLine(lines[i], parse).Ok?) &&
              Convert(results, parse).error == ErrorMessage(lines[j])
  {
    var lines := DataLines(results);
    PairsErr(lines, SplitLineWith(parse));
    var j :| 0 <= j < |lines| && SplitLineWith(parse)(lines[j]).Err? &&
              (forall i :: 0 <= i < j ==> SplitLineWith(parse)(lines[i]).Ok?) &&
              Pairs(lines, SplitLineWith(parse)).error == SplitLineWith(parse)(lines[j]).error;
    assert SplitLine(lines[j], parse).Err?;
  }

  /** A successful conversion is every data line's pair, in order. */
  lemma ConvertValues(results: seq<Option<string>>, parse: string -> Option<real>)
    requires Convert(results, parse).Ok?
    ensures |Convert(results, parse).value| == 2 * |DataLines(results)|
    ensures var lines := DataLines(results);
            forall i :: 0 <= i < |lines| ==>
              SplitLine(lines[i], parse).Ok? &&
              Convert(results, parse).value[2 * i] == SplitLine(lines[i], parse).value.0 &&
              Convert(results, parse).value[2 * i + 1] == SplitLine(lines[i], parse).value.1
  {
    PairsValues(DataLines(results), SplitLineWith(parse));
  }
}
