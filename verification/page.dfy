/** The text processing of the static-site generator: Python's line and
    whitespace primitives, front-matter parsing, title extraction, slugs and
    template substitution. Strings are sequences of Unicode code points. */
module Page {
  import opened Wrappers

  // ------------------------------------------------------ Python primitives

  /** `str.isspace` for one character, which is also what `\s` matches in a
      `re` pattern over `str`. */
  predicate IsSpace(c: char) {
    var n := c as int;
    || (0x09 <= n <= 0x0D) || (0x1C <= n <= 0x20)
    || n == 0x85 || n == 0xA0 || n == 0x1680
    || (0x2000 <= n <= 0x200A)
    || n == 0x2028 || n == 0x2029 || n == 0x202F || n == 0x205F || n == 0x3000
  }

  /** The characters at which `str.splitlines` ends a line. */
  predicate IsLineBreak(c: char) {
    var n := c as int;
    || (0x0A <= n <= 0x0D) || (0x1C <= n <= 0x1E)
    || n == 0x85 || n == 0x2028 || n == 0x2029
  }

  lemma LineBreakIsSpace(c: char)
    requires IsLineBreak(c)
    ensures IsSpace(c)
  {
  }

  predicate AllSpace(s: string) {
    forall i :: 0 <= i < |s| ==> IsSpace(s[i])
  }

  predicate NoLineBreak(s: string) {
    forall i :: 0 <= i < |s| ==> !IsLineBreak(s[i])
  }

  /** The index of the first line break in `s`, or `|s|` when there is none. */
  function FirstBreak(s: string): (j: nat)
    ensures j <= |s|
    ensures j < |s| ==> IsLineBreak(s[j])
    ensures NoLineBreak(s[..j])
  {
    if s == [] then 0
    else if IsLineBreak(s[0]) then 0
    else
      var j := FirstBreak(s[1..]);
      assert s[..j + 1] == [s[0]] + s[1..][..j];
      j + 1
  }

  /** How many characters the break at `j` takes: two for `\r\n`. */
  function BreakLength(s: string, j: nat): nat
    requires j < |s|
  {
    if s[j] == '\r' && j + 1 < |s| && s[j + 1] == '\n' then 2 else 1
  }

  /** `str.splitlines()`: the lines without their terminators, and no empty
      line after a final terminator. */
  function SplitLines(s: string): (lines: seq<string>)
    ensures forall i :: 0 <= i < |lines| ==> NoLineBreak(lines[i])
    ensures s == [] <==> lines == []
    decreases |s|
  {
    if s == [] then []
    else
      var j := FirstBreak(s);
      if j == |s| then [s]
      else [s[..j]] + SplitLines(s[j + BreakLength(s, j)..])
  }

  /** `"\n".join(lines)`. */
  function Join(lines: seq<string>): (s: string)
    ensures |lines| == 1 ==> s == lines[0]
  {
    if lines == [] then ""
    else if |lines| == 1 then lines[0]
    else lines[0] + "\n" + Join(lines[1..])
  }

  /** Joining lines that hold no line break, the last one not empty, and
      splitting the result again gives the lines back. */
  lemma {:induction false} SplitLinesJoin(lines: seq<string>)
    requires forall i :: 0 <= i < |lines| ==> NoLineBreak(lines[i])
    requires |lines| > 0 ==> lines[|lines| - 1] != ""
    ensures SplitLines(Join(lines)) == lines
  {
    if |lines| == 1 {
      FirstBreakNone(lines[0]);
    } else if |lines| > 1 {
      var rest := lines[1..];
      JoinNonEmpty(rest);
      assert Join(lines) == lines[0] + "\n" + Join(rest);
      SplitLinesCons(lines[0], Join(rest));
      SplitLinesJoin(rest);
      assert [lines[0]] + rest == lines;
    }
  }

  /** A line without a break, a `\n` and a non-empty remainder split into
      that line and the lines of the remainder. */
  lemma SplitLinesCons(a: string, r: string)
    requires NoLineBreak(a) && r != ""
    ensures SplitLines(a + "\n" + r) == [a] + SplitLines(r)
  {
    var s := a + "\n" + r;
    assert s == a + ("\n" + r);
    FirstBreakAt(a, "\n" + r);
    assert s[|a|] == '\n';
    assert s[..|a|] == a;
    assert s[|a| + 1..] == r;
  }

  lemma FirstBreakNone(s: string)
    requires NoLineBreak(s)
    ensures FirstBreak(s) == |s|
  {
    if s != [] {
      assert NoLineBreak(s[1..]) by {
        forall i | 0 <= i < |s[1..]| ensures !IsLineBreak(s[1..][i]) {
          assert s[1..][i] == s[i + 1];
        }
      }
      FirstBreakNone(s[1..]);
    }
  }

  lemma FirstBreakAt(a: string, b: string)
    requires NoLineBreak(a) && b != [] && IsLineBreak(b[0])
    ensures FirstBreak(a + b) == |a|
  {
    if a == [] {
      assert a + b == b;
    } else {
      assert (a + b)[1..] == a[1..] + b;
      assert NoLineBreak(a[1..]) by {
        forall i | 0 <= i < |a[1..]| ensures !IsLineBreak(a[1..][i]) {
          assert a[1..][i] == a[i + 1];
        }
      }
      FirstBreakAt(a[1..], b);
    }
  }

  lemma JoinNonEmpty(lines: seq<string>)
    requires |lines| > 0 && lines[|lines| - 1] != ""
    ensures Join(lines) != ""
  {
    if |lines| > 1 {
      assert |Join(lines)| >= 1;
    }
  }

  /** The number of leading whitespace characters. */
  function LeadingSpace(s: string): (n: nat)
    ensures n <= |s|
    ensures n < |s| ==> !IsSpace(s[n])
  {
    if s != [] && IsSpace(s[0]) then LeadingSpace(s[1..]) + 1 else 0
  }

  /** The leading whitespace is all whitespace. */
  lemma {:induction false} LeadingSpaceAll(s: string)
    ensures AllSpace(s[..LeadingSpace(s)])
  {
    if s != [] && IsSpace(s[0]) {
      var n := LeadingSpace(s[1..]);
      LeadingSpaceAll(s[1..]);
      assert s[..n + 1] == [s[0]] + s[1..][..n];
    }
  }

  /** The number of trailing whitespace characters. */
  function TrailingSpace(s: string): (n: nat)
    ensures n <= |s|
    ensures n < |s| ==> !IsSpace(s[|s| - n - 1])
  {
    if s != [] && IsSpace(s[|s| - 1]) then TrailingSpace(s[..|s| - 1]) + 1 else 0
  }

  /** The trailing whitespace is all whitespace. */
  lemma {:induction false} TrailingSpaceAll(s: string)
    ensures AllSpace(s[|s| - TrailingSpace(s)..])
  {
    if s != [] && IsSpace(s[|s| - 1]) {
      var p := s[..|s| - 1];
      var n := TrailingSpace(p);
      TrailingSpaceAll(p);
      var t := s[|s| - (n + 1)..];
      forall k | 0 <= k < |t| ensures IsSpace(t[k]) {
        if k < n {
          assert t[k] == p[|p| - n..][k];
        }
      }
    }
  }

  lemma SpaceAt(s: string, k: int)
    ensures AllSpace(s) && 0 <= k < |s| ==> IsSpace(s[k])
  {
  }

  /** The leading whitespace ends at the first non-space character. */
  lemma LeadingSpaceUnique(s: string, i: nat)
    requires i <= |s| && AllSpace(s[..i]) && (i < |s| ==> !IsSpace(s[i]))
    ensures LeadingSpace(s) == i
  {
    var n := LeadingSpace(s);
    LeadingSpaceAll(s);
    SpaceAt(s[..i], n);
    SpaceAt(s[..n], i);
  }

  /** The trailing whitespace starts after the last non-space character. */
  lemma TrailingSpaceUnique(s: string, i: nat)
    requires i <= |s| && AllSpace(s[|s| - i..]) && (i < |s| ==> !IsSpace(s[|s| - i - 1]))
    ensures TrailingSpace(s) == i
  {
    var n := TrailingSpace(s);
    TrailingSpaceAll(s);
    if n < i {
      SuffixSpaceAt(s, i, |s| - n - 1);
      assert false;
    } else if i < n {
      assert false;
    }
  }

  /** A character inside an all-space suffix is a space. */
  lemma SuffixSpaceAt(s: string, i: nat, k: int)
    requires i <= |s| && AllSpace(s[|s| - i..])
    ensures |s| - i <= k < |s| ==> IsSpace(s[k])
  {
    if |s| - i <= k < |s| {
      assert s[k] == s[|s| - i..][k - (|s| - i)];
    }
  }

  /** `str.lstrip()`. */
  function StripLeft(s: string): string {
    s[LeadingSpace(s)..]
  }

  /** `str.rstrip()`. */
  function StripRight(s: string): string {
    s[..|s| - TrailingSpace(s)]
  }

  /** `str.strip()`: the text between the leading and the trailing
      whitespace. */
  function Strip(s: string): (r: string)
    ensures r == [] || (!IsSpace(r[0]) && !IsSpace(r[|r| - 1]))
  {
    var l := StripLeft(s);
    var r := StripRight(l);
    assert r != [] ==> r[0] == l[0];
    r
  }

  lemma {:induction false} LeadingSpacePrefix(w: string, x: string)
    requires AllSpace(w)
    ensures LeadingSpace(w + x) == |w| + LeadingSpace(x)
  {
    if w == [] {
      assert w + x == x;
    } else {
      assert (w + x)[1..] == w[1..] + x;
      LeadingSpacePrefix(w[1..], x);
    }
  }

  lemma LeadingSpaceSuffix(g: string, w: string)
    requires LeadingSpace(g) < |g|
    ensures LeadingSpace(g + w) == LeadingSpace(g)
  {
    var n := LeadingSpace(g);
    LeadingSpaceAll(g);
    assert (g + w)[..n] == g[..n];
    assert (g + w)[n] == g[n];
    LeadingSpaceUnique(g + w, n);
  }

  lemma {:induction false} TrailingSpaceSuffix(x: string, w: string)
    requires AllSpace(w)
    ensures TrailingSpace(x + w) == |w| + TrailingSpace(x)
  {
    if w == [] {
      assert x + w == x;
    } else {
      var p := w[..|w| - 1];
      assert (x + w)[..|x + w| - 1] == x + p;
      TrailingSpaceSuffix(x, p);
    }
  }

  /** Whitespace around `g` does not change what `strip` makes of it. */
  lemma StripSurrounded(w1: string, g: string, w2: string)
    requires AllSpace(w1) && AllSpace(w2)
    ensures Strip(w1 + g + w2) == Strip(g)
  {
    if LeadingSpace(g) == |g| {
      StripSurroundedBlank(w1, g, w2);
    } else {
      StripSurroundedText(w1, g, w2);
    }
  }

  lemma StripSurroundedBlank(w1: string, g: string, w2: string)
    requires AllSpace(w1) && AllSpace(w2) && LeadingSpace(g) == |g|
    ensures Strip(w1 + g + w2) == Strip(g) == []
  {
    Associative(w1, g, w2);
    StripLeftPrefix(w1, g + w2);
    LeadingSpaceAll(g);
    assert g[..|g|] == g;
    StripLeftPrefix(g, w2);
    StripLeftBlank(w2);
    StripLeftBlank(g);
  }

  /** Nothing is left of whitespace alone. */
  lemma StripLeftBlank(w: string)
    requires AllSpace(w)
    ensures StripLeft(w) == []
  {
    assert w[..|w|] == w;
    LeadingSpaceUnique(w, |w|);
  }

  lemma StripSurroundedText(w1: string, g: string, w2: string)
    requires AllSpace(w1) && AllSpace(w2) && LeadingSpace(g) < |g|
    ensures Strip(w1 + g + w2) == Strip(g)
  {
    StripLeftSurrounded(w1, g, w2);
    StripRightSuffix(StripLeft(g), w2);
  }

  lemma StripLeftSurrounded(w1: string, g: string, w2: string)
    requires AllSpace(w1) && LeadingSpace(g) < |g|
    ensures StripLeft(w1 + g + w2) == StripLeft(g) + w2
  {
    Associative(w1, g, w2);
    StripLeftPrefix(w1, g + w2);
    StripLeftSuffix(g, w2);
  }

  /** Leading whitespace added in front is stripped with the rest. */
  lemma StripLeftPrefix(w: string, t: string)
    requires AllSpace(w)
    ensures StripLeft(w + t) == StripLeft(t)
  {
    var l := LeadingSpace(t);
    LeadingSpacePrefix(w, t);
    StripLeftAt(w + t, |w| + l);
    DropAppend(w, t, |w| + l);
  }

  /** Text after a non-blank string is kept as it is. */
  lemma StripLeftSuffix(g: string, w: string)
    requires LeadingSpace(g) < |g|
    ensures StripLeft(g + w) == StripLeft(g) + w
  {
    var l := LeadingSpace(g);
    LeadingSpaceSuffix(g, w);
    StripLeftAt(g + w, l);
    DropAppend(g, w, l);
  }

  lemma StripLeftAt(s: string, n: nat)
    requires LeadingSpace(s) == n
    ensures StripLeft(s) == s[n..]
  {
  }

  lemma SplitAt<T>(s: seq<T>, k: nat)
    requires k <= |s|
    ensures s[..k] + s[k..] == s
  {
  }

  lemma AppendEmpty<T>(s: seq<T>)
    ensures s + [] == s
  {
  }

  lemma Associative<T>(a: seq<T>, b: seq<T>, c: seq<T>)
    ensures a + b + c == a + (b + c)
  {
  }

  lemma StripRightSuffix(m: string, w2: string)
    requires AllSpace(w2)
    ensures StripRight(m + w2) == StripRight(m)
  {
    TrailingSpaceSuffix(m, w2);
    TakeAppend(m, w2, |m| - TrailingSpace(m));
  }

  lemma DropAppend<T>(a: seq<T>, b: seq<T>, k: nat)
    requires k <= |a| + |b|
    ensures k <= |a| ==> (a + b)[k..] == a[k..] + b
    ensures k >= |a| ==> (a + b)[k..] == b[k - |a|..]
  {
  }

  lemma TakeAppend<T>(a: seq<T>, b: seq<T>, k: nat)
    requires k <= |a|
    ensures (a + b)[..k] == a[..k]
  {
  }

  // ----------------------------------------------------------- front matter

  /** Whether a line is the `---` delimiter once stripped. */
  predicate IsDelimiter(line: string) {
    Strip(line) == "---"
  }

  /** The index of the first delimiter at or after `from`. */
  function FindClose(lines: seq<string>, from: nat): (r: Option<nat>)
    requires from <= |lines|
    ensures r.Some? ==> from <= r.value < |lines| && IsDelimiter(lines[r.value])
    ensures r.Some? ==> forall j :: from <= j < r.value ==> !IsDelimiter(lines[j])
    ensures r.None? ==> forall j :: from <= j < |lines| ==> !IsDelimiter(lines[j])
    decreases |lines| - from
  {
    if from == |lines| then None
    else if IsDelimiter(lines[from]) then Some(from)
    else FindClose(lines, from + 1)
  }

  /** The index of the first `:` in `s`, if any. */
  function FindColon(s: string): (r: Option<nat>)
    ensures r.Some? ==> r.value < |s| && s[r.value] == ':' && ':' !in s[..r.value]
    ensures r.None? <==> ':' !in s
  {
    if s == [] then None
    else if s[0] == ':' then Some(0)
    else match FindColon(s[1..])
      case None => None
      case Some(k) =>
        assert s[..k + 1] == [s[0]] + s[1..][..k];
        Some(k + 1)
  }

  /** `k, v = entry.split(":", 1)` stripped, for an entry with a colon. */
  function Entry(entry: string): (r: Option<(string, string)>)
    ensures r.None? <==> ':' !in entry
  {
    match FindColon(entry)
    case None => None
    case Some(p) => Some((Strip(entry[..p]), Strip(entry[p + 1..])))
  }

  /** The dictionary the collected lines produce, entered in order so that a
      later key overwrites an earlier one; lines without `:` are skipped. */
  function Meta(entries: seq<string>): map<string, string>
  {
    if entries == [] then map[]
    else
      var m := Meta(entries[..|entries| - 1]);
      match Entry(entries[|entries| - 1])
      case None => m
      case Some(kv) => m[kv.0 := kv.1]
  }

  /** Whether `entry` sets the key `k`. */
  predicate Defines(entry: string, k: string) {
    Entry(entry).Some? && Entry(entry).value.0 == k
  }

  /** The key `k` is in the dictionary exactly when some entry defines it. */
  lemma {:induction false} MetaDomain(entries: seq<string>, k: string)
    ensures k in Meta(entries) <==> exists i :: 0 <= i < |entries| && Defines(entries[i], k)
  {
    if entries != [] {
      var n := |entries| - 1;
      var init := entries[..n];
      MetaDomain(init, k);
      assert Meta(entries) == if Entry(entries[n]).None? then Meta(init)
                              else Meta(init)[Entry(entries[n]).value.0 := Entry(entries[n]).value.1];
      if exists i :: 0 <= i < |entries| && Defines(entries[i], k) {
        var i :| 0 <= i < |entries| && Defines(entries[i], k);
        if i < n {
          assert Defines(init[i], k);
        }
      }
      if exists i :: 0 <= i < |init| && Defines(init[i], k) {
        var i :| 0 <= i < |init| && Defines(init[i], k);
        assert Defines(entries[i], k);
      }
    }
  }

  /** The value of a key is the one given by the last entry defining it. */
  lemma {:induction false} MetaLast(entries: seq<string>, i: nat, k: string)
    requires i < |entries| && Defines(entries[i], k)
    requires forall j :: i < j < |entries| ==> !Defines(entries[j], k)
    ensures k in Meta(entries) && Meta(entries)[k] == Entry(entries[i]).value.1
  {
    var n := |entries| - 1;
    var init := entries[..n];
    assert Meta(entries) == if Entry(entries[n]).None? then Meta(init)
                            else Meta(init)[Entry(entries[n]).value.0 := Entry(entries[n]).value.1];
    if i < n {
      assert init[i] == entries[i];
      forall j | i < j < |init| ensures !Defines(init[j], k) {
        assert init[j] == entries[j];
      }
      MetaLast(init, i, k);
    }
  }

  /** `parse_front_matter`, as a value: the dictionary and the text after the
      closing delimiter, or an empty dictionary and the text unchanged when
      the first line is not a delimiter or no closing one follows. */
  function FrontMatter(text: string): (map<string, string>, string)
  {
    var lines := SplitLines(text);
    if lines != [] && IsDelimiter(lines[0]) then
      match FindClose(lines, 1)
      case Some(j) => (Meta(lines[1..j]), Join(lines[j + 1..]))
      case None => (map[], text)
    else (map[], text)
  }

  /** The second loop of `parse_front_matter`: each collected line that
      holds a `:` enters its key and value, a later line overriding an
      earlier one. */
  method CollectMeta(collected: seq<string>) returns (meta: map<string, string>)
    ensures meta == Meta(collected)
  {
    meta := map[];
    var k := 0;
    while k < |collected|
      invariant 0 <= k <= |collected|
      invariant meta == Meta(collected[..k])
    {
      assert collected[..k + 1][..k] == collected[..k];
      match Entry(collected[k]) {
        case None =>
        case Some(kv) => meta := meta[kv.0 := kv.1];
      }
      k := k + 1;
    }
    assert collected[..k] == collected;
  }

  /** `parse_front_matter`: collect lines until the closing delimiter, then
      enter them into the dictionary one by one. */
  method ParseFrontMatter(text: string) returns (meta: map<string, string>, rest: string)
    ensures (meta, rest) == FrontMatter(text)
  {
    var lines := SplitLines(text);
    meta := map[];
    if lines != [] && IsDelimiter(lines[0]) {
      var collected: seq<string> := [];
      var i := 1;
      while i < |lines|
        invariant 1 <= i <= |lines|
        invariant collected == lines[1..i]
        invariant FindClose(lines, 1) == FindClose(lines, i)
      {
        if IsDelimiter(lines[i]) {
          meta := CollectMeta(collected);
          rest := Join(lines[i + 1..]);
          FrontMatterCase(text, lines, i);
          return;
        }
        SliceSnoc(lines, 1, i);
        collected := collected + [lines[i]];
        i := i + 1;
      }
      FrontMatterCase(text, lines, i);
    }
    return map[], text;
  }

  /** FrontMatter once the scan has reached line `i` of an opened text:
      closed there if `i` is a delimiter, unclosed if `i` is the end. */
  lemma FrontMatterCase(text: string, lines: seq<string>, i: nat)
    requires lines == SplitLines(text) && 1 <= i <= |lines| && IsDelimiter(lines[0])
    requires FindClose(lines, 1) == FindClose(lines, i)
    ensures i < |lines| && IsDelimiter(lines[i]) ==>
              FrontMatter(text) == (Meta(lines[1..i]), Join(lines[i + 1..]))
    ensures i == |lines| ==> FrontMatter(text) == (map[], text)
  {
  }

  lemma SliceSnoc<T>(s: seq<T>, a: nat, b: nat)
    requires a <= b < |s|
    ensures s[a..b] + [s[b]] == s[a..b + 1]
  {
  }

  /** Without an opening delimiter the text is returned untouched. */
  lemma FrontMatterNoOpening(text: string)
    requires SplitLines(text) == [] || !IsDelimiter(SplitLines(text)[0])
    ensures FrontMatter(text) == (map[], text)
  {
  }

  /** An opening delimiter that is never closed also leaves the text
      untouched. */
  lemma FrontMatterUnclosed(text: string)
    requires forall j :: 1 <= j < |SplitLines(text)| ==> !IsDelimiter(SplitLines(text)[j])
    ensures FrontMatter(text) == (map[], text)
  {
    var lines := SplitLines(text);
    if lines != [] && IsDelimiter(lines[0]) {
      assert FindClose(lines, 1).None?;
    }
  }

  /** With both delimiters, at 0 and at the first later `j`, the remainder is
      the lines after `j` joined by newlines and the dictionary holds exactly
      the keys of the lines between, each with its last value. */
  lemma FrontMatterClosed(text: string, j: nat, k: string)
    requires j < |SplitLines(text)| && IsDelimiter(SplitLines(text)[0]) && IsDelimiter(SplitLines(text)[j])
    requires 1 <= j && forall i :: 1 <= i < j ==> !IsDelimiter(SplitLines(text)[i])
    ensures FrontMatter(text).1 == Join(SplitLines(text)[j + 1..])
    ensures k in FrontMatter(text).0 <==> exists i :: 1 <= i < j && Defines(SplitLines(text)[i], k)
  {
    var lines := SplitLines(text);
    FrontMatterClosedAt(text, j);
    MetaDomain(lines[1..j], k);
    ExistsInSlice(lines, 1, j, l => Defines(l, k));
  }

  lemma FrontMatterClosedAt(text: string, j: nat)
    requires j < |SplitLines(text)| && IsDelimiter(SplitLines(text)[0]) && IsDelimiter(SplitLines(text)[j])
    requires 1 <= j && forall i :: 1 <= i < j ==> !IsDelimiter(SplitLines(text)[i])
    ensures FrontMatter(text) == (Meta(SplitLines(text)[1..j]), Join(SplitLines(text)[j + 1..]))
  {
    var lines := SplitLines(text);
    FindCloseFirst(lines, 1, j);
    assert lines != [] && IsDelimiter(lines[0]);
  }

  /** Some element of `s[a..b]` satisfies `p` exactly when some index of `s`
      between `a` and `b` does. */
  lemma ExistsInSlice<T>(s: seq<T>, a: nat, b: nat, p: T -> bool)
    requires a <= b <= |s|
    ensures (exists i :: a <= i < b && p(s[i])) <==> (exists i :: 0 <= i < |s[a..b]| && p(s[a..b][i]))
  {
    if exists i :: a <= i < b && p(s[i]) {
      var i :| a <= i < b && p(s[i]);
      assert s[a..b][i - a] == s[i];
    }
    if exists i :: 0 <= i < |s[a..b]| && p(s[a..b][i]) {
      var i :| 0 <= i < |s[a..b]| && p(s[a..b][i]);
      assert s[a..b][i] == s[i + a];
    }
  }

  /** The first delimiter from `from` on is the one FindClose reports. */
  lemma FindCloseFirst(lines: seq<string>, from: nat, j: nat)
    requires from <= j < |lines| && IsDelimiter(lines[j])
    requires forall i :: from <= i < j ==> !IsDelimiter(lines[i])
    ensures FindClose(lines, from) == Some(j)
    decreases j - from
  {
    if from < j {
      FindCloseFirst(lines, from + 1, j);
    }
  }

  // ------------------------------------------------------------------ title

  /** The match of `^\s*#\s+(.+?)\s*$` on one line, stripped: the leading
      whitespace, a `#`, then text that must start with whitespace and have
      at least two characters, since `\s+` and `.+?` each take one. The
      title is that text stripped, which can be empty. */
  function TitleOf(line: string): Option<string>
  {
    var n := LeadingSpace(line);
    if n < |line| && line[n] == '#' then
      var t := line[n + 1..];
      if |t| >= 2 && IsSpace(t[0]) then Some(Strip(t)) else None
    else None
  }

  /** One way for the pattern to match: `line[..i]` is `\s*`, `line[i]` the
      `#`, `line[i + 1..j]` is `\s+`, the group is `line[j..k]` and
      `line[k..]` is `\s*`. */
  predicate RegexSplit(line: string, i: nat, j: nat, k: nat) {
    && i + 1 < j < k <= |line|
    && line[i] == '#'
    && AllSpace(line[..i]) && AllSpace(line[i + 1..j]) && AllSpace(line[k..])
  }

  /** TitleOf matches exactly when the pattern does, and its title is the
      group of any match, stripped. */
  lemma TitleOfRegex(line: string, title: string)
    ensures TitleOf(line) == Some(title) <==>
              exists i: nat, j: nat, k: nat :: RegexSplit(line, i, j, k) && title == Strip(line[j..k])
  {
    if TitleOf(line) == Some(title) {
      TitleOfSplit(line);
    }
    if exists i: nat, j: nat, k: nat :: RegexSplit(line, i, j, k) && title == Strip(line[j..k]) {
      var i: nat, j: nat, k: nat :| RegexSplit(line, i, j, k) && title == Strip(line[j..k]);
      SplitTitleOf(line, i, j, k);
    }
  }

  /** A title found by TitleOf comes from a split of the line: the one whose
      `\s+` is the single character after the `#` and whose trailing `\s*`
      is empty. */
  lemma TitleOfSplit(line: string)
    requires TitleOf(line).Some?
    ensures RegexSplit(line, LeadingSpace(line), LeadingSpace(line) + 2, |line|)
    ensures TitleOf(line).value == Strip(line[LeadingSpace(line) + 2..|line|])
  {
    var n := LeadingSpace(line);
    TitleOfShape(line, n);
    SplitOfShape(line, n);
    TitleOfGroup(line, n);
    DropToEnd(line, n + 2);
  }

  /** The title is the text after the `#` and its whitespace, stripped. */
  lemma TitleOfGroup(line: string, n: nat)
    requires TitleOf(line).Some? && n == LeadingSpace(line)
    ensures n + 2 <= |line| && TitleOf(line).value == Strip(line[n + 2..])
  {
    TitleOfShape(line, n);
    StripSpaceHead(line[n + 1..]);
    DropDrop(line, n + 1, 1);
  }

  lemma DropDrop<T>(s: seq<T>, a: nat, b: nat)
    requires a + b <= |s|
    ensures s[a..][b..] == s[a + b..]
  {
  }

  lemma DropToEnd<T>(s: seq<T>, a: nat)
    requires a <= |s|
    ensures s[a..|s|] == s[a..]
  {
  }

  /** The leading whitespace, `#` and one whitespace character form a split. */
  lemma SplitOfShape(line: string, n: nat)
    requires n == LeadingSpace(line)
    requires n + 2 < |line| && line[n] == '#' && IsSpace(line[n + 1])
    ensures RegexSplit(line, n, n + 2, |line|)
  {
    LeadingSpaceAll(line);
    assert line[n + 1..n + 2] == [line[n + 1]];
    assert line[|line|..] == [];
  }

  /** What TitleOf checks, spelled out for the leading whitespace `n`. */
  lemma TitleOfShape(line: string, n: nat)
    requires TitleOf(line).Some? && n == LeadingSpace(line)
    ensures n + 2 < |line| && line[n] == '#' && IsSpace(line[n + 1])
    ensures TitleOf(line).value == Strip(line[n + 1..])
  {
  }

  /** A leading whitespace character does not change the stripped text. */
  lemma StripSpaceHead(t: string)
    requires |t| >= 1 && IsSpace(t[0])
    ensures Strip(t) == Strip(t[1..])
  {
    SplitAt(t, 1);
    AppendEmpty(t);
    StripSurrounded(t[..1], t[1..], []);
  }

  lemma SplitTitleOf(line: string, i: nat, j: nat, k: nat)
    requires RegexSplit(line, i, j, k)
    ensures TitleOf(line) == Some(Strip(line[j..k]))
  {
    LeadingSpaceUnique(line, i);
    var t := line[i + 1..];
    var w1, g, w2 := line[i + 1..j], line[j..k], line[k..];
    assert t == w1 + g + w2;
    StripSurrounded(w1, g, w2);
    assert t[0] == w1[0];
  }

  /** `##` and `#x` are not titles: the `#` must be followed by whitespace. */
  lemma TitleOfExamples()
    ensures TitleOf("##") == None
    ensures TitleOf("#x") == None
    ensures TitleOf("# Hi") == Some("Hi")
  {
    assert LeadingSpace("# Hi") == 0;
    assert " Hi"[1..] == "Hi";
    assert Strip(" Hi") == "Hi";
  }

  /** A `#` followed by two spaces is a title, and an empty one: the first
      space is the `\s+` and the second the lazy group, stripped away. */
  lemma TitleOfBlank()
    ensures TitleOf("#  ") == Some("")
  {
    assert LeadingSpace("#  ") == 0;
    assert "#  "[1..] == "  ";
    StripLeftBlank("  ");
    assert LeadingSpace("  ") == 2;
  }

  /** The title of the first line that has one. */
  function FirstTitle(lines: seq<string>): (r: Option<string>)
  {
    if lines == [] then None
    else if TitleOf(lines[0]).Some? then TitleOf(lines[0])
    else FirstTitle(lines[1..])
  }

  lemma {:induction false} FirstTitleFirst(lines: seq<string>, title: string)
    ensures FirstTitle(lines) == Some(title) <==>
              exists i :: 0 <= i < |lines| && TitleOf(lines[i]) == Some(title) &&
                          forall j :: 0 <= j < i ==> TitleOf(lines[j]).None?
  {
    if lines != [] {
      FirstTitleFirst(lines[1..], title);
      if TitleOf(lines[0]).None? {
        if exists i :: 0 <= i < |lines| && TitleOf(lines[i]) == Some(title) &&
                       forall j :: 0 <= j < i ==> TitleOf(lines[j]).None? {
          var i :| 0 <= i < |lines| && TitleOf(lines[i]) == Some(title) &&
                   forall j :: 0 <= j < i ==> TitleOf(lines[j]).None?;
          assert lines[1..][i - 1] == lines[i];
          forall j | 0 <= j < i - 1 ensures TitleOf(lines[1..][j]).None? {
            assert lines[1..][j] == lines[j + 1];
          }
        }
        if FirstTitle(lines[1..]) == Some(title) {
          var i :| 0 <= i < |lines[1..]| && TitleOf(lines[1..][i]) == Some(title) &&
                   forall j :: 0 <= j < i ==> TitleOf(lines[1..][j]).None?;
          forall j | 0 <= j < i + 1 ensures TitleOf(lines[j]).None? {
            if j > 0 { assert lines[j] == lines[1..][j - 1]; }
          }
        }
      }
    }
  }

  /** `extract_title`: the title of the first matching line, else the
      fallback. */
  method ExtractTitle(text: string, fallback: string) returns (title: string)
    ensures title == match FirstTitle(SplitLines(text)) case Some(t) => t case None => fallback
  {
    var lines := SplitLines(text);
    for i := 0 to |lines|
      invariant FirstTitle(lines) == FirstTitle(lines[i..])
    {
      assert lines[i..][1..] == lines[i + 1..];
      var m := TitleOf(lines[i]);
      if m.Some? {
        assert FirstTitle(lines[i..]) == m;
        return m.value;
      }
    }
    return fallback;
  }

  // ------------------------------------------------------------------- slug

  predicate IsAlnum(c: char) {
    ('a' <= c <= 'z') || ('A' <= c <= 'Z') || ('0' <= c <= '9')
  }

  /** A character a slug may hold: `[a-z0-9-]`. */
  predicate IsSlugChar(c: char) {
    ('a' <= c <= 'z') || ('0' <= c <= '9') || c == '-'
  }

  /** `encode("ascii", "ignore")`: the characters below 128. */
  function AsciiOnly(s: string): (r: string)
    ensures forall i :: 0 <= i < |r| ==> r[i] as int < 128
    ensures |r| <= |s|
  {
    if s == [] then []
    else (if s[0] as int < 128 then [s[0]] else []) + AsciiOnly(s[1..])
  }

  /** `re.sub(r"[^a-zA-Z0-9]+", "-", s)`: each maximal run of other
      characters becomes one `-`, written at the run's last character. */
  function DashRuns(s: string): (r: string)
    ensures forall i :: 0 <= i < |r| ==> IsAlnum(r[i]) || r[i] == '-'
    ensures forall i :: 0 <= i < |r| - 1 ==> !(r[i] == '-' && r[i + 1] == '-')
    ensures r != [] && s != [] ==> (r[0] == '-' <==> !IsAlnum(s[0]))
  {
    if s == [] then []
    else if IsAlnum(s[0]) then [s[0]] + DashRuns(s[1..])
    else if |s| > 1 && !IsAlnum(s[1]) then DashRuns(s[1..])
    else "-" + DashRuns(s[1..])
  }

  /** The number of leading `-`. */
  function LeadingDashes(s: string): (n: nat)
    ensures n <= |s| && (forall k :: 0 <= k < n ==> s[k] == '-')
    ensures n < |s| ==> s[n] != '-'
  {
    if s != [] && s[0] == '-' then
      var n := LeadingDashes(s[1..]);
      assert forall k :: 1 <= k < n + 1 ==> s[k] == s[1..][k - 1];
      n + 1
    else 0
  }

  /** The number of trailing `-`. */
  function TrailingDashes(s: string): (n: nat)
    ensures n <= |s| && (forall k :: |s| - n <= k < |s| ==> s[k] == '-')
    ensures n < |s| ==> s[|s| - n - 1] != '-'
  {
    if s != [] && s[|s| - 1] == '-' then
      var n := TrailingDashes(s[..|s| - 1]);
      n + 1
    else 0
  }

  /** `strip("-")`. */
  function StripDashes(s: string): (r: string)
    ensures r == [] || (r[0] != '-' && r[|r| - 1] != '-')
  {
    var l := s[LeadingDashes(s)..];
    var r := l[..|l| - TrailingDashes(l)];
    assert r != [] ==> r[0] == l[0];
    r
  }

  function LowerChar(c: char): char {
    if 'A' <= c <= 'Z' then (c as int + 32) as char else c
  }

  /** `lower()` on ASCII text. */
  function Lower(s: string): (r: string)
    ensures |r| == |s|
    ensures forall i :: 0 <= i < |s| ==> r[i] == LowerChar(s[i])
  {
    seq(|s|, i requires 0 <= i < |s| => LowerChar(s[i]))
  }

  /** `slugify`, after the NFKD folding: only ASCII kept, runs of other
      characters replaced by `-`, dashes stripped from both ends, lower-cased,
      and `page` when nothing is left. */
  function Slugify(text: string): string {
    var t := Lower(StripDashes(DashRuns(AsciiOnly(text))));
    if t == [] then "page" else t
  }

  /** What is left after the dashes are stripped and before the `page`
      fallback: letters, digits and single inner dashes. */
  lemma SlugCore(text: string)
    ensures var t := Lower(StripDashes(DashRuns(AsciiOnly(text))));
            && (forall i :: 0 <= i < |t| ==> IsSlugChar(t[i]))
            && (t == [] || (t[0] != '-' && t[|t| - 1] != '-'))
            && (forall i :: 0 <= i < |t| - 1 ==> !(t[i] == '-' && t[i + 1] == '-'))
  {
    var d := DashRuns(AsciiOnly(text));
    var s := StripDashes(d);
    StripDashesSlice(d);
    DashSlice(d, LeadingDashes(d), LeadingDashes(d) + |s|);
    LowerKeepsSlug(s);
  }

  /** Stripping the dashes keeps a slice of the string. */
  lemma StripDashesSlice(d: string)
    ensures LeadingDashes(d) + |StripDashes(d)| <= |d|
    ensures StripDashes(d) == d[LeadingDashes(d)..LeadingDashes(d) + |StripDashes(d)|]
  {
  }

  /** Any slice of a dash-run result is letters, digits and single dashes. */
  lemma DashSlice(d: string, a: nat, b: nat)
    requires a <= b <= |d|
    requires forall i :: 0 <= i < |d| ==> IsAlnum(d[i]) || d[i] == '-'
    requires forall i :: 0 <= i < |d| - 1 ==> !(d[i] == '-' && d[i + 1] == '-')
    ensures forall i :: 0 <= i < b - a ==> IsAlnum(d[a..b][i]) || d[a..b][i] == '-'
    ensures forall i :: 0 <= i < b - a - 1 ==> !(d[a..b][i] == '-' && d[a..b][i + 1] == '-')
  {
    forall i | 0 <= i < b - a - 1
      ensures !(d[a..b][i] == '-' && d[a..b][i + 1] == '-')
    {
      assert d[a..b][i] == d[a + i] && d[a..b][i + 1] == d[a + i + 1];
    }
  }

  /** Lower-casing letters, digits and single dashes gives slug characters
      and keeps the dashes where they were. */
  lemma LowerKeepsSlug(s: string)
    requires forall i :: 0 <= i < |s| ==> IsAlnum(s[i]) || s[i] == '-'
    requires forall i :: 0 <= i < |s| - 1 ==> !(s[i] == '-' && s[i + 1] == '-')
    requires s == [] || (s[0] != '-' && s[|s| - 1] != '-')
    ensures var t := Lower(s);
            && (forall i :: 0 <= i < |t| ==> IsSlugChar(t[i]))
            && (t == [] || (t[0] != '-' && t[|t| - 1] != '-'))
            && (forall i :: 0 <= i < |t| - 1 ==> !(t[i] == '-' && t[i + 1] == '-'))
  {
    var t := Lower(s);
    forall i | 0 <= i < |t|
      ensures IsSlugChar(t[i]) && (t[i] == '-' <==> s[i] == '-')
    {
      LowerCharSlug(s[i]);
    }
  }

  lemma LowerCharSlug(c: char)
    requires IsAlnum(c) || c == '-'
    ensures IsSlugChar(LowerChar(c)) && (LowerChar(c) == '-' <==> c == '-')
  {
  }

  /** A slug is not empty, holds only `[a-z0-9-]`, does not start or end
      with `-` and never has two `-` in a row. */
  lemma SlugifyWellFormed(text: string)
    ensures Slugify(text) != []
    ensures forall i :: 0 <= i < |Slugify(text)| ==> IsSlugChar(Slugify(text)[i])
    ensures Slugify(text)[0] != '-' && Slugify(text)[|Slugify(text)| - 1] != '-'
    ensures forall i :: 0 <= i < |Slugify(text)| - 1 ==> !(Slugify(text)[i] == '-' && Slugify(text)[i + 1] == '-')
  {
    var t := Lower(StripDashes(DashRuns(AsciiOnly(text))));
    SlugCore(text);
    if t == [] {
      PageIsSlug();
    } else {
      assert Slugify(text) == t;
    }
  }

  /** The fallback is itself a slug. */
  lemma PageIsSlug()
    ensures forall i :: 0 <= i < |"page"| ==> IsSlugChar("page"[i])
    ensures "page"[0] != '-' && "page"[|"page"| - 1] != '-'
    ensures forall i :: 0 <= i < |"page"| - 1 ==> !("page"[i] == '-' && "page"[i + 1] == '-')
  {
  }

  /** The letters and digits of a string, in order. */
  function Alnums(s: string): (r: string)
    ensures |r| <= |s|
  {
    if s == [] then []
    else (if IsAlnum(s[0]) then [s[0]] else []) + Alnums(s[1..])
  }

  lemma {:induction false} AlnumsAppend(a: string, b: string)
    ensures Alnums(a + b) == Alnums(a) + Alnums(b)
  {
    if a == [] {
      assert a + b == b;
    } else {
      assert (a + b)[0] == a[0] && (a + b)[1..] == a[1..] + b;
      AlnumsAppend(a[1..], b);
      var h := if IsAlnum(a[0]) then [a[0]] else [];
      assert Alnums(a + b) == h + (Alnums(a[1..]) + Alnums(b));
    }
  }

  lemma {:induction false} DashRunsAlnums(s: string)
    ensures Alnums(DashRuns(s)) == Alnums(s)
  {
    if s != [] {
      DashRunsAlnums(s[1..]);
      if IsAlnum(s[0]) {
        AlnumsAppend([s[0]], DashRuns(s[1..]));
      } else if !(|s| > 1 && !IsAlnum(s[1])) {
        AlnumsAppend("-", DashRuns(s[1..]));
      }
    }
  }

  lemma {:induction false} AlnumsOfDashes(s: string)
    requires forall k :: 0 <= k < |s| ==> s[k] == '-'
    ensures Alnums(s) == []
  {
    if s != [] {
      AlnumsOfDashes(s[1..]);
    }
  }

  lemma StripDashesAlnums(s: string)
    ensures Alnums(StripDashes(s)) == Alnums(s)
  {
    var i := LeadingDashes(s);
    var l := s[i..];
    var j := i + |l| - TrailingDashes(l);
    assert StripDashes(s) == s[i..j];
    assert s == s[..i] + s[i..j] + s[j..];
    AlnumsAppend(s[..i] + s[i..j], s[j..]);
    AlnumsAppend(s[..i], s[i..j]);
    AlnumsOfDashes(s[..i]);
    AlnumsOfDashes(s[j..]);
  }

  lemma {:induction false} LowerAlnums(s: string)
    ensures Alnums(Lower(s)) == Lower(Alnums(s))
  {
    if s != [] {
      assert Lower(s) == [LowerChar(s[0])] + Lower(s[1..]);
      AlnumsAppend([LowerChar(s[0])], Lower(s[1..]));
      LowerAlnums(s[1..]);
      assert Lower(Alnums(s)) == Lower(if IsAlnum(s[0]) then [s[0]] else []) + Lower(Alnums(s[1..]));
    }
  }

  /** The letters and digits of the (ASCII) input survive, in order and
      lower-cased; without any, the slug is `page`. */
  lemma SlugifyKeepsAlnums(text: string)
    ensures Alnums(AsciiOnly(text)) != [] ==> Alnums(Slugify(text)) == Lower(Alnums(AsciiOnly(text)))
    ensures Alnums(AsciiOnly(text)) == [] ==> Slugify(text) == "page"
  {
    var a := AsciiOnly(text);
    var s := StripDashes(DashRuns(a));
    DashRunsAlnums(a);
    StripDashesAlnums(DashRuns(a));
    LowerAlnums(s);
    SlugCore(text);
    SlugHasAlnum(Lower(s));
  }

  /** A non-empty string of letters, digits and dashes that does not start
      with a dash holds a letter or digit. */
  lemma SlugHasAlnum(s: string)
    requires forall i :: 0 <= i < |s| ==> IsSlugChar(s[i])
    ensures s != [] && s[0] != '-' ==> Alnums(s) != []
  {
    if s != [] {
      assert Alnums(s) == (if IsAlnum(s[0]) then [s[0]] else []) + Alnums(s[1..]);
    }
  }

  /** Slugifying a slug changes nothing. */
  lemma SlugifyIdempotent(text: string)
    ensures Slugify(Slugify(text)) == Slugify(text)
  {
    var s := Slugify(text);
    SlugifyWellFormed(text);
    AsciiOnlySlug(s);
    DashRunsSlug(s);
    StripDashesSlug(s);
    LowerSlug(s);
  }

  lemma {:induction false} AsciiOnlySlug(s: string)
    requires forall i :: 0 <= i < |s| ==> IsSlugChar(s[i])
    ensures AsciiOnly(s) == s
  {
    if s != [] {
      AsciiOnlySlug(s[1..]);
    }
  }

  lemma {:induction false} DashRunsSlug(s: string)
    requires forall i :: 0 <= i < |s| ==> IsSlugChar(s[i])
    requires forall i :: 0 <= i < |s| - 1 ==> !(s[i] == '-' && s[i + 1] == '-')
    ensures DashRuns(s) == s
  {
    if s != [] {
      DashRunsSlug(s[1..]);
      assert s == [s[0]] + s[1..];
    }
  }

  lemma StripDashesSlug(s: string)
    requires s != [] && s[0] != '-' && s[|s| - 1] != '-'
    ensures StripDashes(s) == s
  {
  }

  lemma LowerSlug(s: string)
    requires forall i :: 0 <= i < |s| ==> IsSlugChar(s[i])
    ensures Lower(s) == s
  {
  }

  // --------------------------------------------------------------- template

  /** Whether `pat` occurs in `s` at `i`. */
  predicate OccursAt(s: string, pat: string, i: nat) {
    i + |pat| <= |s| && s[i..i + |pat|] == pat
  }

  /** `s.replace(pat, rep)` for a non-empty pattern: occurrences replaced
      left to right, never overlapping, and the replacement text not
      searched again. */
  function Replace(s: string, pat: string, rep: string): string
    requires pat != []
  {
    if |s| < |pat| then s
    else if s[..|pat|] == pat then rep + Replace(s[|pat|..], pat, rep)
    else [s[0]] + Replace(s[1..], pat, rep)
  }

  /** Without an occurrence nothing is replaced. */
  lemma {:induction false} ReplaceAbsent(s: string, pat: string, rep: string)
    requires pat != []
    requires forall i :: 0 <= i <= |s| ==> !OccursAt(s, pat, i)
    ensures Replace(s, pat, rep) == s
  {
    if |s| >= |pat| {
      assert !OccursAt(s, pat, 0);
      forall i | 0 <= i <= |s[1..]| ensures !OccursAt(s[1..], pat, i) {
        assert !OccursAt(s, pat, i + 1);
        if i + |pat| <= |s[1..]| {
          assert s[1..][i..i + |pat|] == s[i + 1..i + 1 + |pat|];
        }
      }
      ReplaceAbsent(s[1..], pat, rep);
    }
  }

  /** Replacing a pattern by itself is the identity. */
  lemma {:induction false} ReplaceSelf(s: string, pat: string)
    requires pat != []
    ensures Replace(s, pat, pat) == s
  {
    if |s| >= |pat| {
      if s[..|pat|] == pat {
        ReplaceSelf(s[|pat|..], pat);
        assert s == s[..|pat|] + s[|pat|..];
      } else {
        ReplaceSelf(s[1..], pat);
        assert s == [s[0]] + s[1..];
      }
    }
  }

  /** Text in front of the first occurrence is kept, then the occurrence is
      replaced and the search goes on after it. */
  lemma {:induction false} ReplaceFirst(a: string, pat: string, rep: string, b: string)
    requires pat != []
    requires forall i :: 0 <= i < |a| ==> !OccursAt(a + pat + b, pat, i)
    ensures Replace(a + pat + b, pat, rep) == a + rep + Replace(b, pat, rep)
  {
    var s := a + pat + b;
    if a == [] {
      assert s == pat + b;
      assert s[..|pat|] == pat;
      assert s[|pat|..] == b;
    } else {
      ReplaceSkip(s, pat, rep);
      assert s[1..] == a[1..] + pat + b;
      NoOccurrenceShift(a, pat, b);
      ReplaceFirst(a[1..], pat, rep, b);
      var r := Replace(b, pat, rep);
      assert [a[0]] + (a[1..] + rep + r) == a + rep + r;
    }
  }

  /** No occurrence at the front: the first character is kept. */
  lemma ReplaceSkip(s: string, pat: string, rep: string)
    requires pat != [] && |s| > 0 && !OccursAt(s, pat, 0)
    ensures Replace(s, pat, rep) == [s[0]] + Replace(s[1..], pat, rep)
  {
    assert |s| < |pat| || s[0..|pat|] == s[..|pat|];
  }

  /** Dropping the first character moves the occurrence-free positions one
      to the left. */
  lemma NoOccurrenceShift(a: string, pat: string, b: string)
    requires a != []
    requires forall i :: 0 <= i < |a| ==> !OccursAt(a + pat + b, pat, i)
    ensures forall i :: 0 <= i < |a[1..]| ==> !OccursAt(a[1..] + pat + b, pat, i)
  {
    var s := a + pat + b;
    assert s[1..] == a[1..] + pat + b;
    forall i | 0 <= i < |a[1..]| ensures !OccursAt(a[1..] + pat + b, pat, i) {
      assert !OccursAt(s, pat, i + 1);
      assert s[i + 1..i + 1 + |pat|] == s[1..][i..i + |pat|];
    }
  }

  const TITLE_SLOT: string := "{{ title }}"
  const CONTENT_SLOT: string := "{{ content }}"

  /** `render_with_template`: every `{{ title }}` replaced, then every
      `{{ content }}` in that result. */
  function RenderWithTemplate(template: string, title: string, body: string): string {
    Replace(Replace(template, TITLE_SLOT, title), CONTENT_SLOT, body)
  }

  /** A template with neither placeholder comes back unchanged. */
  lemma RenderWithoutSlots(template: string, title: string, body: string)
    requires forall i :: 0 <= i <= |template| ==> !OccursAt(template, TITLE_SLOT, i)
    requires forall i :: 0 <= i <= |template| ==> !OccursAt(template, CONTENT_SLOT, i)
    ensures RenderWithTemplate(template, title, body) == template
  {
    ReplaceAbsent(template, TITLE_SLOT, title);
    ReplaceAbsent(template, CONTENT_SLOT, body);
  }

  /** The content placeholder is substituted after the title, so one that
      arrives inside the title is substituted as well. */
  lemma RenderTitleFirst(body: string)
    ensures RenderWithTemplate(TITLE_SLOT, CONTENT_SLOT, body) == body
  {
    assert TITLE_SLOT == [] + TITLE_SLOT + [];
    ReplaceFirst([], TITLE_SLOT, CONTENT_SLOT, []);
    assert CONTENT_SLOT + [] == [] + CONTENT_SLOT + [];
    ReplaceFirst([], CONTENT_SLOT, body, []);
  }
}
