/**
 * The parser of the text printed by `btrfs subvolume list <mount>`
 * (`parseSubVolumes`, main.go:127-144). The input is read one
 * '\n'-terminated line at a time; every line must split on single spaces
 * into exactly nine tokens, and the ninth, without its '\n', is the
 * subvolume path. Text after the last '\n' is never looked at.
 */
module Listing {
  import opened Wrappers
  import opened GoStrings

  /** The error `parseSubVolumes` returns, carrying the offending line. */
  datatype ListingError = MalformedListing(line: string)

  // ---------------------------------------------------------------------
  // Lines of a text

  /** A line as `ReadBytes('\n')` returns it: non-empty, its only '\n' at the end. */
  predicate Terminated(line: string)
  {
    |line| > 0 && line[|line| - 1] == '\n' && '\n' !in line[..|line| - 1]
  }

  /** The '\n'-terminated lines of `s`, each with its '\n', in order. */
  function Lines(s: string): seq<string>
    decreases |s|
  {
    if '\n' !in s then []
    else
      var n := IndexOf(s, '\n') + 1;
      [s[..n]] + Lines(s[n..])
  }

  /** Unfolding `Lines` at the first '\n'. */
  lemma LinesStep(s: string, n: nat)
    requires '\n' in s && n == IndexOf(s, '\n') + 1
    ensures Lines(s) == [s[..n]] + Lines(s[n..])
  {
  }

  /** Every line `ReadBytes('\n')` delivers is non-empty and ends with its only '\n'. */
  lemma {:induction false} LinesTerminated(s: string)
    ensures forall i :: 0 <= i < |Lines(s)| ==> Terminated(Lines(s)[i])
    decreases |s|
  {
    if '\n' in s {
      var n := IndexOf(s, '\n') + 1;
      var line, rest := s[..n], s[n..];
      LinesStep(s, n);
      FirstLineTerminated(s, n);
      LinesTerminated(rest);
      forall i | 0 <= i < |Lines(s)|
        ensures Terminated(Lines(s)[i])
      {
        if i > 0 {
          assert Lines(s)[i] == Lines(rest)[i - 1];
        }
      }
    }
  }

  /** The text up to and including its first '\n' is a terminated line. */
  lemma FirstLineTerminated(s: string, n: nat)
    requires '\n' in s && n == IndexOf(s, '\n') + 1
    ensures Terminated(s[..n])
  {
    assert s[..n][..n - 1] == s[..n - 1];
  }

  /** What follows the last '\n' of `s` (all of `s` when it has none). */
  function Fragment(s: string): (r: string)
    ensures '\n' !in r
    decreases |s|
  {
    if '\n' !in s then s else Fragment(s[IndexOf(s, '\n') + 1..])
  }

  /** Unfolding `Fragment` at the first '\n'. */
  lemma FragmentStep(s: string, n: nat)
    requires '\n' in s && n == IndexOf(s, '\n') + 1
    ensures Fragment(s) == Fragment(s[n..])
  {
  }

  function Concat(lines: seq<string>): string
  {
    if lines == [] then [] else lines[0] + Concat(lines[1..])
  }

  /** The lines and the fragment make up the whole text. */
  lemma {:induction false} LinesCover(s: string)
    ensures Concat(Lines(s)) + Fragment(s) == s
    decreases |s|
  {
    if '\n' in s {
      var n := IndexOf(s, '\n') + 1;
      var line, rest := s[..n], s[n..];
      calc {
        Concat(Lines(s)) + Fragment(s);
        { LinesStep(s, n); FragmentStep(s, n); }
        Concat([line] + Lines(rest)) + Fragment(rest);
        { ConcatCons(line, Lines(rest)); }
        (line + Concat(Lines(rest))) + Fragment(rest);
        { AppendAssoc(line, Concat(Lines(rest)), Fragment(rest)); }
        line + (Concat(Lines(rest)) + Fragment(rest));
        { LinesCover(rest); }
        line + rest;
        s;
      }
    } else {
      assert [] + s == s;
    }
  }

  lemma AppendAssoc(a: string, b: string, c: string)
    ensures (a + b) + c == a + (b + c)
  {
  }

  lemma ConcatCons(line: string, lines: seq<string>)
    ensures Concat([line] + lines) == line + Concat(lines)
  {
    assert ([line] + lines)[1..] == lines;
  }

  /** Terminated lines followed by a fragment without '\n' are split back into those lines. */
  lemma {:induction false} LinesOfConcat(lines: seq<string>, fragment: string)
    requires forall i :: 0 <= i < |lines| ==> Terminated(lines[i])
    requires '\n' !in fragment
    ensures Lines(Concat(lines) + fragment) == lines
    ensures Fragment(Concat(lines) + fragment) == fragment
  {
    if lines != [] {
      var line := lines[0];
      var rest := Concat(lines[1..]) + fragment;
      var s := Concat(lines) + fragment;
      assert s == line + rest;
      assert s[..|line|] == line;
      IndexOfUnique(s, '\n', |line| - 1);
      assert s[|line|..] == rest;
      LinesOfConcat(lines[1..], fragment);
    }
  }

  // ---------------------------------------------------------------------
  // One line

  /** A line that splits on single spaces into exactly nine tokens. */
  predicate WellFormed(line: string)
  {
    |Split(line, ' ')| == 9
  }

  /** The path a well-formed line names: its ninth token without the trailing '\n'. */
  function PathOf(line: string): string
    requires WellFormed(line)
  {
    TrimRight(Split(line, ' ')[8], '\n')
  }

  /** A line is well-formed exactly when it holds eight spaces. */
  lemma WellFormedSpaces(line: string)
    ensures WellFormed(line) <==> Count(line, ' ') == 8
  {
    SplitCount(line, ' ');
  }

  // ---------------------------------------------------------------------
  // The parse

  /** `names` followed by the names of `r`, or the error of `r`. */
  function Prepend(names: seq<string>, r: Result<seq<string>, ListingError>): Result<seq<string>, ListingError>
  {
    match r
    case Ok(rest) => Ok(names + rest)
    case Err(e) => Err(e)
  }

  /**
   * What `parseSubVolumes` returns for the text `s`, read line by line as
   * `ReadBytes('\n')` delivers it.
   */
  function Parse(s: string): Result<seq<string>, ListingError>
    decreases |s|
  {
    if '\n' !in s then Ok([])
    else
      var n := IndexOf(s, '\n') + 1;
      var line := s[..n];
      if !WellFormed(line) then Err(MalformedListing(line))
      else Prepend([PathOf(line)], Parse(s[n..]))
  }

  /** Unfolding the parse at its first line. */
  lemma ParseStep(s: string, n: nat)
    requires '\n' in s && n == IndexOf(s, '\n') + 1
    ensures Parse(s) == if WellFormed(s[..n]) then Prepend([PathOf(s[..n])], Parse(s[n..]))
                        else Err(MalformedListing(s[..n]))
  {
  }

  lemma PrependAssoc(names: seq<string>, name: string, r: Result<seq<string>, ListingError>)
    ensures Prepend(names, Prepend([name], r)) == Prepend(names + [name], r)
  {
    if r.Ok? {
      assert names + ([name] + r.value) == (names + [name]) + r.value;
    }
  }

  /** The same parse, stated over the lines of the text instead of the text. */
  function ParseLines(lines: seq<string>): Result<seq<string>, ListingError>
  {
    if lines == [] then Ok([])
    else if !WellFormed(lines[0]) then Err(MalformedListing(lines[0]))
    else Prepend([PathOf(lines[0])], ParseLines(lines[1..]))
  }

  /** Reading the text line by line is parsing its lines. */
  lemma {:induction false} ParseIsParseLines(s: string)
    ensures Parse(s) == ParseLines(Lines(s))
    decreases |s|
  {
    if '\n' in s {
      var n := IndexOf(s, '\n') + 1;
      assert Lines(s)[1..] == Lines(s[n..]);
      ParseIsParseLines(s[n..]);
    }
  }

  /** Parsing lines succeeds exactly when every line is well-formed, with one path per line, in order. */
  lemma {:induction false} ParseLinesOk(lines: seq<string>)
    ensures ParseLines(lines).Ok? <==> forall i :: 0 <= i < |lines| ==> WellFormed(lines[i])
    ensures ParseLines(lines).Ok? ==>
      |ParseLines(lines).value| == |lines| &&
      forall i :: 0 <= i < |lines| ==> WellFormed(lines[i]) && ParseLines(lines).value[i] == PathOf(lines[i])
  {
    if lines != [] {
      ParseLinesOk(lines[1..]);
      assert forall i :: 1 <= i < |lines| ==> lines[i] == lines[1..][i - 1];
      if WellFormed(lines[0]) && ParseLines(lines[1..]).Ok? {
        var rest := ParseLines(lines[1..]).value;
        assert ParseLines(lines).value == [PathOf(lines[0])] + rest;
      }
    }
  }

  /** A failed parse names the first malformed line. */
  lemma {:induction false} ParseLinesErr(lines: seq<string>)
    requires ParseLines(lines).Err?
    ensures exists k :: (0 <= k < |lines| && ParseLines(lines).error == MalformedListing(lines[k]) &&
                         !WellFormed(lines[k]) && forall i :: 0 <= i < k ==> WellFormed(lines[i]))
  {
    if WellFormed(lines[0]) {
      ParseLinesErr(lines[1..]);
      var k :| 0 <= k < |lines[1..]| && ParseLines(lines[1..]).error == MalformedListing(lines[1..][k]) &&
        !WellFormed(lines[1..][k]) && forall i :: 0 <= i < k ==> WellFormed(lines[1..][i]);
      assert forall i :: 1 <= i < k + 1 ==> lines[i] == lines[1..][i - 1];
      assert lines[k + 1] == lines[1..][k];
    } else {
      assert ParseLines(lines).error == MalformedListing(lines[0]);
    }
  }

  /**
   * The parse succeeds exactly when every '\n'-terminated line of the text
   * is well-formed, and then yields one path per line, in input order.
   */
  lemma ParseSucceeds(s: string)
    ensures Parse(s).Ok? <==> forall i :: 0 <= i < |Lines(s)| ==> WellFormed(Lines(s)[i])
    ensures Parse(s).Ok? ==>
      |Parse(s).value| == |Lines(s)| &&
      forall i :: 0 <= i < |Lines(s)| ==> WellFormed(Lines(s)[i]) && Parse(s).value[i] == PathOf(Lines(s)[i])
  {
    ParseIsParseLines(s);
    ParseLinesOk(Lines(s));
  }

  /** A failed parse reports the first malformed line and returns no names. */
  lemma ParseFails(s: string)
    requires Parse(s).Err?
    ensures exists k :: (0 <= k < |Lines(s)| && Parse(s).error == MalformedListing(Lines(s)[k]) &&
                         !WellFormed(Lines(s)[k]) && forall i :: 0 <= i < k ==> WellFormed(Lines(s)[i]))
  {
    ParseIsParseLines(s);
    ParseLinesErr(Lines(s));
  }

  /** Text after the last '\n' changes nothing: it is silently dropped. */
  lemma {:induction false} ParseIgnoresFragment(s: string, fragment: string)
    requires '\n' !in fragment
    ensures Parse(s + fragment) == Parse(s)
    decreases |s|
  {
    var t := s + fragment;
    if '\n' in s {
      var i := IndexOf(s, '\n');
      assert t[i] == '\n' && t[..i] == s[..i];
      IndexOfUnique(t, '\n', i);
      assert t[..i + 1] == s[..i + 1];
      assert t[i + 1..] == s[i + 1..] + fragment;
      ParseIgnoresFragment(s[i + 1..], fragment);
    } else {
      assert forall k :: 0 <= k < |t| ==> t[k] == if k < |s| then s[k] else fragment[k - |s|];
      assert '\n' !in t;
    }
  }

  /** An empty line is a single token, so it aborts the whole parse. */
  lemma BlankLineRejected(rest: string)
    ensures Parse(['\n'] + rest) == Err(MalformedListing(['\n']))
  {
    var s := ['\n'] + rest;
    IndexOfUnique(s, '\n', 0);
    assert s[..1] == ['\n'];
  }

  // ---------------------------------------------------------------------
  // The record format of `btrfs subvolume list`, as a partner of the parse

  /** One record of the listing: "ID <id> gen <gen> top level <top> path <path>". */
  datatype Entry = Entry(id: string, gen: string, topLevel: string, path: string)

  /** A field that can stand in a record: no space and no '\n'. */
  predicate Field(f: string)
  {
    ' ' !in f && '\n' !in f
  }

  predicate ValidEntry(e: Entry)
  {
    Field(e.id) && Field(e.gen) && Field(e.topLevel) && Field(e.path)
  }

  function Tokens(e: Entry): seq<string>
  {
    ["ID", e.id, "gen", e.gen, "top", "level", e.topLevel, "path", e.path + ['\n']]
  }

  /**
   * The line the listing tool prints for one entry, its nine tokens joined
   * by single spaces: "ID <id> gen <gen> top level <top> path <path>\n".
   */
  function Render(e: Entry): string
  {
    Join(Tokens(e), ' ')
  }

  /** Joining pieces of which only the last holds a '\n', at its end, gives a terminated line. */
  lemma {:induction false} JoinTerminated(parts: seq<string>)
    requires |parts| >= 1
    requires forall i :: 0 <= i < |parts| - 1 ==> '\n' !in parts[i]
    requires Terminated(parts[|parts| - 1])
    ensures Terminated(Join(parts, ' '))
  {
    if |parts| > 1 {
      JoinTerminated(parts[1..]);
      var head := parts[0] + [' '];
      var tail := Join(parts[1..], ' ');
      assert Join(parts, ' ') == head + tail;
      assert (head + tail)[..|head + tail| - 1] == head + tail[..|tail| - 1];
    }
  }

  function RenderAll(entries: seq<Entry>): string
  {
    if entries == [] then [] else Render(entries[0]) + RenderAll(entries[1..])
  }

  function Paths(entries: seq<Entry>): (r: seq<string>)
    ensures |r| == |entries| && forall i :: 0 <= i < |r| ==> r[i] == entries[i].path
  {
    if entries == [] then [] else [entries[0].path] + Paths(entries[1..])
  }

  /** The nine tokens of a valid entry hold no space. */
  lemma TokensSpaceFree(e: Entry)
    requires ValidEntry(e)
    ensures forall i :: 0 <= i < |Tokens(e)| ==> ' ' !in Tokens(e)[i]
  {
    assert ' ' !in "ID" && ' ' !in "gen" && ' ' !in "top" && ' ' !in "level" && ' ' !in "path";
  }

  /** The last of the nine tokens is the only one holding a '\n', at its end. */
  lemma TokensTerminated(e: Entry)
    requires ValidEntry(e)
    ensures forall i :: 0 <= i < |Tokens(e)| - 1 ==> '\n' !in Tokens(e)[i]
    ensures Terminated(Tokens(e)[8])
  {
    assert '\n' !in "ID" && '\n' !in "gen" && '\n' !in "top" && '\n' !in "level" && '\n' !in "path";
    assert Tokens(e)[8][..|Tokens(e)[8]| - 1] == e.path;
  }

  /** A rendered entry is a well-formed line naming the entry's path. */
  lemma RenderedLine(e: Entry)
    requires ValidEntry(e)
    ensures Terminated(Render(e)) && WellFormed(Render(e)) && PathOf(Render(e)) == e.path
  {
    TokensSpaceFree(e);
    SplitJoin(Tokens(e), ' ');
    TokensTerminated(e);
    JoinTerminated(Tokens(e));
    TrimRightOne(e.path, '\n');
  }

  /** Round trip: the listing printed for valid entries parses back to their paths, in order. */
  lemma {:induction false} ParseRenderAll(entries: seq<Entry>)
    requires forall i :: 0 <= i < |entries| ==> ValidEntry(entries[i])
    ensures Parse(RenderAll(entries)) == Ok(Paths(entries))
  {
    if entries != [] {
      var e := entries[0];
      var line := Render(e);
      var rest := RenderAll(entries[1..]);
      RenderedLine(e);
      var s := line + rest;
      assert s[..|line|] == line;
      assert s[..|line| - 1] == line[..|line| - 1];
      IndexOfUnique(s, '\n', |line| - 1);
      assert s[|line|..] == rest;
      ParseRenderAll(entries[1..]);
    }
  }

  /**
   * Two lines of a listing of daily snapshots, whatever their ids and
   * generations, parse to the two snapshot paths, in order.
   */
  lemma ListingExample(entries: seq<Entry>)
    requires |entries| == 2 && ValidEntry(entries[0]) && ValidEntry(entries[1])
    requires entries[0].path == "snapshot/2019-01-10_03-00" && entries[1].path == "snapshot/2019-01-11_03-00"
    ensures Parse(RenderAll(entries)) == Ok(["snapshot/2019-01-10_03-00", "snapshot/2019-01-11_03-00"])
  {
    assert forall i :: 0 <= i < |entries| ==> ValidEntry(entries[i]);
    ParseRenderAll(entries);
    var paths := Paths(entries);
    assert |paths| == 2 && paths[0] == entries[0].path && paths[1] == entries[1].path;
    assert paths == ["snapshot/2019-01-10_03-00", "snapshot/2019-01-11_03-00"];
  }

  // ---------------------------------------------------------------------
  // The imperative reader

  /**
   * `bufio.Reader.ReadBytes('\n')` on the text from position `pos`: the
   * bytes up to and including the next '\n', or, when there is none, the
   * rest of the text together with end-of-file.
   */
  method ReadBytes(text: string, pos: nat) returns (line: string, next: nat, eof: bool)
    requires pos <= |text|
    ensures eof <==> '\n' !in text[pos..]
    ensures eof ==> line == text[pos..] && next == |text|
    ensures !eof ==> next == pos + IndexOf(text[pos..], '\n') + 1 <= |text| && line == text[pos..next]
  {
    var j := pos;
    while j < |text| && text[j] != '\n'
      invariant pos <= j <= |text|
      invariant '\n' !in text[pos..j]
    {
      j := j + 1;
    }
    if j == |text| {
      assert text[pos..j] == text[pos..];
      return text[pos..], |text|, true;
    }
    assert text[pos..][j - pos] == '\n' && text[pos..][..j - pos] == text[pos..j];
    IndexOfUnique(text[pos..], '\n', j - pos);
    return text[pos..j + 1], j + 1, false;
  }

  /** How the loop of `parseSubVolumes` moves past one line `ReadBytes` delivered. */
  lemma ParseAdvance(text: string, pos: nat, next: nat, names: seq<string>)
    requires pos <= |text| && '\n' in text[pos..]
    requires next == pos + IndexOf(text[pos..], '\n') + 1 <= |text|
    ensures WellFormed(text[pos..next]) ==>
      Prepend(names, Parse(text[pos..])) == Prepend(names + [PathOf(text[pos..next])], Parse(text[next..]))
    ensures !WellFormed(text[pos..next]) ==>
      Prepend(names, Parse(text[pos..])) == Err(MalformedListing(text[pos..next]))
  {
    var rest := text[pos..];
    var n := next - pos;
    assert rest[..n] == text[pos..next] && rest[n..] == text[next..];
    ParseStep(rest, n);
    if WellFormed(text[pos..next]) {
      PrependAssoc(names, PathOf(text[pos..next]), Parse(text[next..]));
    }
  }

  /** `parseSubVolumes`: the paths named by the listing `text`, or the first malformed line. */
  method ParseSubVolumes(text: string) returns (r: Result<seq<string>, ListingError>)
    ensures r == Parse(text)
  {
    var names: seq<string> := [];
    var pos: nat := 0;
    assert text[pos..] == text;
    match Parse(text) {
      case Ok(all) => assert names + all == all;
      case Err(_) =>
    }
    while true
      invariant pos <= |text|
      invariant Parse(text) == Prepend(names, Parse(text[pos..]))
      decreases |text| - pos
    {
      var line, next, eof := ReadBytes(text, pos);
      if eof {
        assert names + [] == names;
        return Ok(names);
      }
      ParseAdvance(text, pos, next, names);
      var tokens := Split(line, ' ');
      if |tokens| != 9 {
        return Err(MalformedListing(line));
      }
      names := names + [TrimRight(tokens[8], '\n')];
      pos := next;
    }
  }
}
