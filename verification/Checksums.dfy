// internal/selfupdate: choosing an asset and reading checksums.txt.
module Checksums {
  import opened Options

  datatype Asset = Asset(name: string, url: string)

  function AssetName(goos: string, goarch: string): string { "telemux_" + goos + "_" + goarch }

  method PickAsset(assets: seq<Asset>, name: string) returns (found: Option<Asset>)
    ensures found.Some? <==> exists i :: 0 <= i < |assets| && assets[i].name == name
    ensures found.Some? ==> exists i :: 0 <= i < |assets| && assets[i] == found.value && found.value.name == name
                                        && forall j :: 0 <= j < i ==> assets[j].name != name
  {
    for i := 0 to |assets|
      invariant forall j :: 0 <= j < i ==> assets[j].name != name
    {
      if assets[i].name == name {
        return Some(assets[i]);
      }
    }
    found := None;
  }

  // Go's default token limit of a line scanner, in bytes.
  const MAX_LINE := 65536

  predicate IsSpace(c: char) {
    || c == ' ' || '\t' <= c <= '\r' || c == '\U{0085}' || c == '\U{00A0}' || c == '\U{1680}'
    || '\U{2000}' <= c <= '\U{200A}' || '\U{2028}' <= c <= '\U{2029}'
    || c == '\U{202F}' || c == '\U{205F}' || c == '\U{3000}'
  }

  function LowerAscii(c: char): char { if 'A' <= c <= 'Z' then (c as int + 32) as char else c }

  // Lower case of ASCII letters; other letters stay.
  function Lower(s: string): string { LowerBy(s, LowerAscii) }

  function LowerBy(s: string, lower: char -> char): string {
    if s == "" then "" else [lower(s[0])] + LowerBy(s[1..], lower)
  }

  predicate HexDigit(c: char) { '0' <= c <= '9' || 'a' <= c <= 'f' }

  predicate HexDigest(s: string) { forall i :: 0 <= i < |s| ==> HexDigit(s[i]) }

  // A lower-casing of all Unicode letters, as far as it matters here.
  ghost predicate LowersUnicode(lower: char -> char) {
    forall c :: if c <= '\U{007F}' then lower(c) == LowerAscii(c) else !HexDigit(lower(c))
  }

  // Such a lower-casing makes the same texts equal to a hexadecimal digest.
  lemma {:induction false} AsciiSuffices(s: string, digest: string, lower: char -> char)
    requires LowersUnicode(lower) && HexDigest(digest)
    ensures LowerBy(s, lower) == digest <==> Lower(s) == digest
  {
    if s != "" && digest != "" {
      AsciiSuffices(s[1..], digest[1..], lower);
      assert HexDigit(digest[0]) && digest == [digest[0]] + digest[1..];
      assert LowerBy(s, lower)[1..] == LowerBy(s[1..], lower) && Lower(s)[1..] == Lower(s[1..]);
    }
  }

  // Length of the first run of characters that are spaces (or that are not).
  function Span(s: string, spaces: bool): (n: nat)
    ensures n <= |s| && (forall i :: 0 <= i < n ==> IsSpace(s[i]) == spaces)
    ensures n < |s| ==> IsSpace(s[n]) != spaces
  {
    if s == "" || IsSpace(s[0]) != spaces then 0 else 1 + Span(s[1..], spaces)
  }

  // The words of a line.
  function Fields(s: string): seq<string>
    decreases |s|
  {
    var skip := Span(s, true);
    if skip == |s| then []
    else
      var rest := s[skip..];
      var n := Span(rest, false);
      [rest[..n]] + Fields(rest[n..])
  }

  function LineLength(s: string): (n: nat)
    ensures n <= |s| && '\n' !in s[..n] && (n < |s| ==> s[n] == '\n')
  {
    if s == "" || s[0] == '\n' then 0
    else
      var n := 1 + LineLength(s[1..]);
      assert s[..n] == [s[0]] + s[1..][..n - 1];
      n
  }

  // Bytes of the text in UTF-8.
  function Size(s: string): nat {
    if s == "" then 0
    else
      Size(s[1..])
      + if s[0] <= '\U{007F}' then 1 else if s[0] <= '\U{07FF}' then 2 else if s[0] <= '\U{FFFF}' then 3 else 4
  }

  // The lines a scanner yields: it stops for good at one beyond its limit.
  function Lines(s: string): seq<string> {
    var n := LineLength(s);
    if s == "" || Size(s[..n]) >= MAX_LINE then []
    else [s[..n]] + if n < |s| then Lines(s[n + 1..]) else []
  }

  // What a line records: its last word is the file, its first the checksum.
  function Entry(line: string): Option<(string, string)> {
    var fields := Fields(line);
    if |fields| >= 2 then Some((fields[|fields| - 1], Lower(fields[0]))) else None
  }

  // The record of the last line for each file.
  function Recorded(lines: seq<string>): map<string, string> {
    if lines == [] then map[]
    else
      var rest, e := Recorded(lines[..|lines| - 1]), Entry(lines[|lines| - 1]);
      if e.Some? then rest[e.value.0 := e.value.1] else rest
  }

  lemma RecordedSnoc(lines: seq<string>, i: nat)
    requires i < |lines|
    ensures Recorded(lines[..i + 1]) ==
            var e := Entry(lines[i]);
            if e.Some? then Recorded(lines[..i])[e.value.0 := e.value.1] else Recorded(lines[..i])
  {
    assert lines[..i + 1][..i] == lines[..i];
  }

  method ParseChecksums(text: string) returns (out: map<string, string>)
    ensures out == Recorded(Lines(text))
  {
    var lines := Lines(text);
    out := ParseLines(lines);
  }

  method ParseLines(lines: seq<string>) returns (out: map<string, string>)
    ensures out == Recorded(lines)
  {
    out := map[];
    for i := 0 to |lines|
      invariant out == Recorded(lines[..i])
    {
      RecordedSnoc(lines, i);
      var fields := Fields(lines[i]);
      if |fields| >= 2 {
        out := out[fields[|fields| - 1] := Lower(fields[0])];
      }
    }
    assert lines[..|lines|] == lines;
  }

  // ---- Known values ----

  function UpperAscii(c: char): char { if 'a' <= c <= 'z' then (c as int - 32) as char else c }

  // A digest is read the same in upper and in lower case.
  lemma {:induction false} LowerOfDigest(digest: string)
    requires HexDigest(digest)
    ensures Lower(digest) == digest && Lower(LowerBy(digest, UpperAscii)) == digest
  {
    if digest != "" {
      assert HexDigit(digest[0]);
      LowerOfDigest(digest[1..]);
    }
  }

  // The scanner gives up for good on a line of 65536 bytes or more.
  lemma ScansUpTo(line: string, rest: string)
    requires '\n' !in line
    ensures Lines(line + "\n" + rest) == if Size(line) < 65536 then [line] + Lines(rest) else []
  {
    var s := line + "\n" + rest;
    LineExact(line, rest);
    assert s[..|line|] == line && s[|line| + 1..] == rest;
  }

  lemma {:induction false} SizeOfAscii(s: string)
    requires forall i :: 0 <= i < |s| ==> s[i] <= '~'
    ensures Size(s) == |s|
  {
    if s != "" {
      SizeOfAscii(s[1..]);
    }
  }

  // One to four bytes a character.
  lemma SizeOfChar(c: char)
    ensures Size([c]) == if c as int < 128 then 1 else if c as int < 2048 then 2 else if c as int < 65536 then 3 else 4
  {
    assert [c][1..] == "";
  }

  lemma {:induction false} SizeOfBoth(a: string, b: string)
    ensures Size(a + b) == Size(a) + Size(b)
  {
    if a == "" {
      assert a + b == b;
    } else {
      assert (a + b)[1..] == a[1..] + b;
      SizeOfBoth(a[1..], b);
    }
  }

  // A line records its first word for its last one, whatever is between; it needs two.
  lemma FirstAndLast(line: string)
    ensures Entry(line) == if |Fields(line)| < 2 then None
                           else Some((Fields(line)[|Fields(line)| - 1], Lower(Fields(line)[0])))
  {
  }

  lemma PrintableIsWord(s: string)
    requires s != "" && forall i :: 0 <= i < |s| ==> '!' <= s[i] <= '~'
    ensures Word(s)
  {
  }

  // Printable words set apart by blanks or tabs are the line's words.
  lemma BlanksSeparate(sum: string, gap: string, name: string)
    requires sum != "" && forall i :: 0 <= i < |sum| ==> '!' <= sum[i] <= '~'
    requires name != "" && forall i :: 0 <= i < |name| ==> '!' <= name[i] <= '~'
    requires gap != "" && forall i :: 0 <= i < |gap| ==> gap[i] == ' ' || gap[i] == '\t'
    ensures Fields(sum + (gap + name)) == [sum, name]
  {
    PrintableIsWord(sum);
    PrintableIsWord(name);
    FieldsOfRest(gap, name);
    FieldsOfTwo(sum, name, gap + name);
  }

  // ---- Reading what the release tool writes ----

  predicate Word(s: string) { s != "" && forall i :: 0 <= i < |s| ==> !IsSpace(s[i]) }

  function RenderLine(sum: string, name: string): string { sum + "  " + name }

  function RenderSums(entries: seq<(string, string)>): string {
    if entries == [] then "" else RenderLine(entries[0].0, entries[0].1) + "\n" + RenderSums(entries[1..])
  }

  predicate ValidSums(entries: seq<(string, string)>) {
    forall e :: e in entries ==> Word(e.0) && Word(e.1) && Size(RenderLine(e.0, e.1)) < MAX_LINE
  }

  function Table(entries: seq<(string, string)>): map<string, string> {
    if entries == [] then map[]
    else
      var e := entries[|entries| - 1];
      Table(entries[..|entries| - 1])[e.1 := Lower(e.0)]
  }

  lemma {:induction false} SpanExact(w: string, rest: string, spaces: bool)
    requires forall i :: 0 <= i < |w| ==> IsSpace(w[i]) == spaces
    requires rest == "" || IsSpace(rest[0]) != spaces
    ensures Span(w + rest, spaces) == |w|
  {
    if w == "" {
      assert w + rest == rest;
    } else {
      assert (w + rest)[1..] == w[1..] + rest;
      SpanExact(w[1..], rest, spaces);
    }
  }

  lemma FieldsOfWord(w: string, rest: string)
    requires Word(w) && (rest == "" || IsSpace(rest[0]))
    ensures Fields(w + rest) == [w] + Fields(rest)
  {
    SpanExact("", w + rest, true);
    assert "" + (w + rest) == w + rest && (w + rest)[0..] == w + rest;
    SpanExact(w, rest, false);
    assert (w + rest)[..|w|] == w && (w + rest)[|w|..] == rest;
  }

  lemma FieldsOfGap(gap: string, rest: string)
    requires (forall i :: 0 <= i < |gap| ==> IsSpace(gap[i])) && rest != "" && !IsSpace(rest[0])
    ensures Fields(gap + rest) == Fields(rest)
  {
    SpanExact(gap, rest, true);
    SpanExact("", rest, true);
    assert (gap + rest)[|gap|..] == rest && "" + rest == rest && rest[0..] == rest;
  }

  lemma FieldsOfOne(name: string)
    requires Word(name)
    ensures Fields(name) == [name]
  {
    FieldsOfWord(name, "");
    assert name + "" == name;
  }

  lemma FieldsOfRest(gap: string, name: string)
    requires Word(name) && gap != "" && forall i :: 0 <= i < |gap| ==> IsSpace(gap[i])
    ensures IsSpace((gap + name)[0]) && Fields(gap + name) == [name]
  {
    FieldsOfGap(gap, name);
    FieldsOfOne(name);
  }

  lemma FieldsOfTwo(sum: string, name: string, rest: string)
    requires Word(sum) && rest != "" && IsSpace(rest[0]) && Fields(rest) == [name]
    ensures Fields(sum + rest) == [sum, name]
  {
    FieldsOfWord(sum, rest);
  }

  lemma LineEntry(sum: string, name: string)
    requires Word(sum) && Word(name)
    ensures Entry(RenderLine(sum, name)) == Some((name, Lower(sum)))
  {
    var rest := "  " + name;
    FieldsOfRest("  ", name);
    FieldsOfTwo(sum, name, rest);
    assert RenderLine(sum, name) == sum + rest;
  }

  lemma {:induction false} LineExact(line: string, rest: string)
    requires '\n' !in line
    ensures LineLength(line + "\n" + rest) == |line|
  {
    var s := line + "\n" + rest;
    if line == "" {
      assert s[0] == '\n';
    } else {
      assert s[1..] == line[1..] + "\n" + rest;
      assert line[0] in line;
      LineExact(line[1..], rest);
    }
  }

  function RenderedLines(entries: seq<(string, string)>): seq<string> {
    if entries == [] then [] else [RenderLine(entries[0].0, entries[0].1)] + RenderedLines(entries[1..])
  }

  lemma {:induction false} RenderedLineAt(entries: seq<(string, string)>)
    ensures |RenderedLines(entries)| == |entries|
    ensures forall i :: 0 <= i < |entries| ==> RenderedLines(entries)[i] == RenderLine(entries[i].0, entries[i].1)
  {
    if entries != [] {
      RenderedLineAt(entries[1..]);
    }
  }

  lemma {:induction false} LinesOfRendered(entries: seq<(string, string)>)
    requires ValidSums(entries)
    ensures Lines(RenderSums(entries)) == RenderedLines(entries)
  {
    if entries != [] {
      var e := entries[0];
      assert e in entries;
      ScansUpTo(RenderLine(e.0, e.1), RenderSums(entries[1..]));
      LinesOfRendered(entries[1..]);
    }
  }

  lemma {:induction false} RecordedIsTable(entries: seq<(string, string)>, lines: seq<string>)
    requires ValidSums(entries) && |lines| == |entries|
    requires forall i :: 0 <= i < |lines| ==> lines[i] == RenderLine(entries[i].0, entries[i].1)
    ensures Recorded(lines) == Table(entries)
  {
    if entries != [] {
      var e := entries[|entries| - 1];
      assert e in entries;
      LineEntry(e.0, e.1);
      RecordedIsTable(entries[..|entries| - 1], lines[..|lines| - 1]);
    }
  }

  lemma {:induction false} LastEntryCounts(entries: seq<(string, string)>, k: nat)
    requires k < |entries| && forall j :: k < j < |entries| ==> entries[j].1 != entries[k].1
    ensures entries[k].1 in Table(entries) && Table(entries)[entries[k].1] == Lower(entries[k].0)
  {
    if k < |entries| - 1 {
      LastEntryCounts(entries[..|entries| - 1], k);
    }
  }

  lemma {:induction false} OnlyEntriesCount(entries: seq<(string, string)>, name: string)
    ensures name in Table(entries) <==> exists k :: 0 <= k < |entries| && entries[k].1 == name
  {
    if entries != [] {
      var front := entries[..|entries| - 1];
      OnlyEntriesCount(front, name);
      if k :| 0 <= k < |front| && front[k].1 == name {
        assert entries[k].1 == name;
      }
    }
  }

  // A checksums file reads back as its table, the last record of a file counting.
  lemma ChecksumsRoundTrip(entries: seq<(string, string)>)
    requires ValidSums(entries)
    ensures Recorded(Lines(RenderSums(entries))) == Table(entries)
  {
    LinesOfRendered(entries);
    RenderedLineAt(entries);
    RecordedIsTable(entries, Lines(RenderSums(entries)));
  }
}
