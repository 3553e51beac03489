/** The text of a hosts file: parsing a line, formatting an entry, printing and reading the whole
    file. Which strings are IP addresses is a parameter. */
module HostsText {
  import opened Bytes

  /** One line: an active entry with its address and names, or a line kept as it is. */
  datatype Entry = Entry(ip: string, hosts: seq<string>, raw: string, active: bool)

  /** Whether a string parses as an IP address. */
  type IpTest = string -> bool

  /** What every IP address text satisfies. */
  ghost predicate LawfulTest(isIp: IpTest) {
    forall s :: isIp(s) ==> IsWord(s) && s[0] != '#'
  }

  // ---------------------------------------------------------------------------
  // Words
  // ---------------------------------------------------------------------------

  /** Unicode white space. */
  predicate IsSpace(c: char) {
    var n := c as int;
    || 9 <= n <= 13 || n == 0x20 || n == 0x85 || n == 0xA0 || n == 0x1680 || 0x2000 <= n <= 0x200A
    || n == 0x2028 || n == 0x2029 || n == 0x202F || n == 0x205F || n == 0x3000
  }

  predicate SpaceFree(s: string) {
    forall i :: 0 <= i < |s| ==> !IsSpace(s[i])
  }

  predicate IsWord(s: string) {
    s != "" && SpaceFree(s)
  }

  function TrimLeft(s: string): string {
    if s != "" && IsSpace(s[0]) then TrimLeft(s[1..]) else s
  }

  function TrimRight(s: string): string {
    if s != "" && IsSpace(s[|s| - 1]) then TrimRight(s[..|s| - 1]) else s
  }

  function Trim(s: string): string { TrimRight(TrimLeft(s)) }

  function Flush(word: string): seq<string> {
    if word == "" then [] else [word]
  }

  /** The words of a text, of which `word` has been read already. */
  function FieldsFrom(word: string, s: string): seq<string>
    decreases |s|
  {
    if s == "" then Flush(word)
    else if IsSpace(s[0]) then Flush(word) + FieldsFrom("", s[1..])
    else FieldsFrom(word + [s[0]], s[1..])
  }

  function Fields(s: string): seq<string> { FieldsFrom("", s) }

  predicate AreWords(ws: seq<string>) {
    forall i :: 0 <= i < |ws| ==> IsWord(ws[i])
  }

  lemma {:induction false} FieldsAreWords(word: string, s: string)
    requires SpaceFree(word)
    ensures AreWords(FieldsFrom(word, s))
    decreases |s|
  {
    if s != "" {
      if IsSpace(s[0]) { FieldsAreWords("", s[1..]); } else { FieldsAreWords(word + [s[0]], s[1..]); }
    }
  }

  lemma {:induction false} FieldsTrimLeft(s: string)
    ensures Fields(TrimLeft(s)) == Fields(s)
    decreases |s|
  {
    if s != "" && IsSpace(s[0]) { FieldsTrimLeft(s[1..]); }
  }

  lemma {:induction false} FieldsDropSpace(word: string, s: string)
    requires s != "" && IsSpace(s[|s| - 1])
    ensures FieldsFrom(word, s[..|s| - 1]) == FieldsFrom(word, s)
    decreases |s|
  {
    var t := s[..|s| - 1];
    if |s| == 1 {
      assert t == "" && s[1..] == "";
    } else {
      assert t[0] == s[0] && t[1..] == s[1..][..|s| - 2];
      FieldsDropSpace(if IsSpace(s[0]) then "" else word + [s[0]], s[1..]);
    }
  }

  lemma {:induction false} FieldsTrimRight(s: string)
    ensures Fields(TrimRight(s)) == Fields(s)
    decreases |s|
  {
    if s != "" && IsSpace(s[|s| - 1]) {
      FieldsDropSpace("", s);
      FieldsTrimRight(s[..|s| - 1]);
    }
  }

  lemma FieldsTrim(s: string)
    ensures Fields(Trim(s)) == Fields(s)
  {
    FieldsTrimLeft(s);
    FieldsTrimRight(TrimLeft(s));
  }

  /** Reading a word, then a space or the end. */
  lemma {:induction false} FieldsWord(word: string, w: string, rest: string)
    requires SpaceFree(w) && (rest == "" || IsSpace(rest[0]))
    ensures FieldsFrom(word, w + rest)
         == Flush(word + w) + (if rest == "" then [] else FieldsFrom("", rest[1..]))
    decreases |w|
  {
    var s := w + rest;
    if w == "" {
      assert s == rest && word + w == word;
    } else {
      assert s[0] == w[0] && s[1..] == w[1..] + rest;
      assert word + [w[0]] + w[1..] == word + w;
      FieldsWord(word + [w[0]], w[1..], rest);
    }
  }

  // ---------------------------------------------------------------------------
  // Lines
  // ---------------------------------------------------------------------------

  function Join(xs: seq<string>, sep: string): string {
    if xs == [] then "" else if |xs| == 1 then xs[0] else xs[0] + (sep + Join(xs[1..], sep))
  }

  function FormatEntry(ip: string, hosts: seq<string>): string {
    ip + ("\t" + Join(hosts, " "))
  }

  function ParseLine(isIp: IpTest, line: string): Entry {
    var trimmed := Trim(line);
    if trimmed == "" || trimmed[0] == '#' then Entry("", [], line, false)
    else
      var fields := Fields(trimmed);
      if |fields| < 2 || !isIp(fields[0]) then Entry("", [], line, false)
      else Entry(fields[0], fields[1..], line, true)
  }

  lemma {:induction false} FieldsJoin(ws: seq<string>)
    requires AreWords(ws)
    ensures Fields(Join(ws, " ")) == ws
    decreases |ws|
  {
    if |ws| == 1 {
      assert ws[0] + "" == ws[0] == "" + ws[0];
      FieldsWord("", ws[0], "");
    } else if ws != [] {
      var rest := " " + Join(ws[1..], " ");
      FieldsJoin(ws[1..]);
      FieldsWord("", ws[0], rest);
      assert rest[1..] == Join(ws[1..], " ") && "" + ws[0] == ws[0];
      assert [ws[0]] + ws[1..] == ws;
    }
  }

  lemma TrimKeepsFirst(s: string)
    requires s != "" && !IsSpace(s[0])
    ensures Trim(s) != "" && Trim(s)[0] == s[0]
  {
    TrimRightFirst(s);
  }

  lemma {:induction false} TrimRightFirst(s: string)
    requires s != "" && !IsSpace(s[0])
    ensures TrimRight(s) != "" && TrimRight(s)[0] == s[0]
    decreases |s|
  {
    if IsSpace(s[|s| - 1]) { TrimRightFirst(s[..|s| - 1]); }
  }

  lemma {:induction false} TrimLeftFirst(s: string)
    ensures TrimLeft(s) != "" ==> !IsSpace(TrimLeft(s)[0])
    decreases |s|
  {
    if s != "" && IsSpace(s[0]) { TrimLeftFirst(s[1..]); }
  }

  lemma {:induction false} FieldsFirst(word: string, s: string)
    requires word != ""
    ensures FieldsFrom(word, s) != [] && word <= FieldsFrom(word, s)[0]
    decreases |s|
  {
    if s != "" && !IsSpace(s[0]) { FieldsFirst(word + [s[0]], s[1..]); }
  }

  /** A line is an active entry if and only if it has at least two words and the first is an address
      that does not start with a hash sign; then those words are its address and names. The line
      itself is always kept. */
  lemma ParsesExactly(isIp: IpTest, line: string)
    ensures var e, words := ParseLine(isIp, line), Fields(line);
      && e.raw == line
      && (e.active <==> |words| >= 2 && isIp(words[0]) && !("#" <= words[0]))
      && if e.active then [e.ip] + e.hosts == words else e.ip == "" && e.hosts == []
  {
    var trimmed := Trim(line);
    FieldsTrim(line);
    TrimLeftFirst(line);
    if trimmed != "" {
      assert TrimLeft(line) != "";
      TrimRightFirst(TrimLeft(line));
      assert Fields(trimmed) == FieldsFrom("" + [trimmed[0]], trimmed[1..]);
      FieldsFirst("" + [trimmed[0]], trimmed[1..]);
      var first := Fields(trimmed)[0];
      assert first[0] == trimmed[0];
      assert "#" <= first <==> first[0] == '#';
    }
  }

  lemma FieldsFormat(ip: string, hosts: seq<string>)
    requires IsWord(ip)
    ensures Fields(FormatEntry(ip, hosts)) == [ip] + Fields(Join(hosts, " "))
  {
    var rest := "\t" + Join(hosts, " ");
    FieldsWord("", ip, rest);
    assert rest[1..] == Join(hosts, " ") && "" + ip == ip;
  }

  /** A formatted entry parses back to the same address and names exactly when there is a name and
      every name is a word. */
  lemma FormatParses(isIp: IpTest, ip: string, hosts: seq<string>)
    requires LawfulTest(isIp) && isIp(ip)
    ensures var line := FormatEntry(ip, hosts);
      ParseLine(isIp, line) == Entry(ip, hosts, line, true) <==> hosts != [] && AreWords(hosts)
  {
    var line := FormatEntry(ip, hosts);
    FieldsTrim(line);
    FieldsFormat(ip, hosts);
    assert line[0] == ip[0];
    TrimKeepsFirst(line);
    var fields := Fields(line);
    assert fields[0] == ip && fields[1..] == Fields(Join(hosts, " "));
    if hosts != [] && AreWords(hosts) {
      FieldsJoin(hosts);
    } else {
      FieldsAreWords("", Join(hosts, " "));
    }
  }

  // ---------------------------------------------------------------------------
  // The whole file
  // ---------------------------------------------------------------------------

  function DropReturn(s: string): string {
    if s != "" && s[|s| - 1] == '\r' then s[..|s| - 1] else s
  }

  /** The length of the first line, without its newline. */
  function LineEnd(s: string): (n: nat)
    ensures n <= |s| && (forall i :: 0 <= i < n ==> s[i] != '\n') && (n < |s| ==> s[n] == '\n')
  {
    if s == "" || s[0] == '\n' then 0 else 1 + LineEnd(s[1..])
  }

  /** Lines as the scanner delivers them: one carriage return before the newline is dropped, and
      nothing follows a final newline. */
  function Lines(s: string): seq<string>
    decreases |s|
  {
    if s == "" then []
    else
      var n := LineEnd(s);
      [DropReturn(s[..n])] + (if n < |s| then Lines(s[n + 1..]) else [])
  }

  /** The scanner's buffer: a line that fills it without a newline stops the scan with an error. */
  const MAX_LINE := 65536

  function ByteLength(s: string): nat { |Utf8(s)| }

  predicate Fits(line: string) { ByteLength(line) < MAX_LINE }

  /** The scan reaches the end: every line, with its carriage return, fits. */
  predicate Scans(s: string)
    decreases |s|
  {
    s == "" ||
    var n := LineEnd(s);
    Fits(s[..n]) && (n < |s| ==> Scans(s[n + 1..]))
  }

  function Raws(es: seq<Entry>): seq<string> {
    seq(|es|, i requires 0 <= i < |es| => es[i].raw)
  }

  function Print(es: seq<Entry>): string {
    var text := Join(Raws(es), "\n");
    if text != "" && text[|text| - 1] == '\n' then text else text + "\n"
  }

  function ParseAll(isIp: IpTest, lines: seq<string>): seq<Entry> {
    seq(|lines|, i requires 0 <= i < |lines| => ParseLine(isIp, lines[i]))
  }

  function ParseFile(isIp: IpTest, text: string): seq<Entry> {
    ParseAll(isIp, Lines(text))
  }

  /** Reading a file. */
  function Load(isIp: IpTest, text: string): Result<seq<Entry>> {
    if Scans(text) then Ok(ParseFile(isIp, text)) else Err("token too long")
  }

  /** The active table: address and names of each active entry, in order. */
  function Active(es: seq<Entry>): seq<(string, seq<string>)> {
    if es == [] then []
    else (if es[0].active then [(es[0].ip, es[0].hosts)] else []) + Active(es[1..])
  }

  /** The raw line carries what the entry says, and is a single line. */
  ghost predicate ParsesBack(isIp: IpTest, e: Entry) {
    var p := ParseLine(isIp, e.raw);
    p.active == e.active && p.ip == e.ip && p.hosts == e.hosts && '\n' !in e.raw
  }

  ghost predicate AllParseBack(isIp: IpTest, es: seq<Entry>) {
    forall i :: 0 <= i < |es| ==> ParsesBack(isIp, es[i])
  }

  lemma {:induction false} JoinSingleLine(ws: seq<string>)
    requires AreWords(ws)
    ensures '\n' !in Join(ws, " ")
    decreases |ws|
  {
    if ws != [] {
      assert forall i :: 0 <= i < |ws[0]| ==> ws[0][i] != '\n';
      JoinSingleLine(ws[1..]);
    }
  }

  /** An entry written by the program carries what it says. */
  lemma FormattedParsesBack(isIp: IpTest, ip: string, hosts: seq<string>)
    requires LawfulTest(isIp) && isIp(ip) && hosts != [] && AreWords(hosts)
    ensures ParsesBack(isIp, Entry(ip, hosts, FormatEntry(ip, hosts), true))
  {
    FormatParses(isIp, ip, hosts);
    JoinSingleLine(hosts);
    assert forall i :: 0 <= i < |ip| ==> ip[i] != '\n';
  }

  /** An entry read from a file carries what it says. */
  lemma ParsedParsesBack(isIp: IpTest, line: string)
    requires '\n' !in line
    ensures ParsesBack(isIp, ParseLine(isIp, line))
  {}

  // Lines of a printed file.

  function DropReturns(lines: seq<string>): seq<string> {
    seq(|lines|, i requires 0 <= i < |lines| => DropReturn(lines[i]))
  }

  lemma {:induction false} LineEndIs(w: string, rest: string)
    requires '\n' !in w
    ensures LineEnd(w + ("\n" + rest)) == |w|
  {
    var s := w + ("\n" + rest);
    assert s[|w|] == '\n';
    assert forall i :: 0 <= i < |w| ==> s[i] == w[i];
  }

  lemma LinesCons(w: string, rest: string)
    requires '\n' !in w
    ensures Lines(w + ("\n" + rest)) == [DropReturn(w)] + Lines(rest)
  {
    var s := w + ("\n" + rest);
    LineEndIs(w, rest);
    assert s[..|w|] == w && s[|w| + 1..] == rest;
  }

  lemma DropReturnIs(w: string)
    ensures DropReturn(w + "\r") == w
    ensures w == "" || w[|w| - 1] != '\r' ==> DropReturn(w) == w
  {
    assert (w + "\r")[..|w|] == w;
  }

  lemma ReturnBefore(w: string, rest: string)
    ensures (w + "\r") + ("\n" + rest) == w + ("\r\n" + rest)
  {}

  /** Lines may end either way. */
  lemma LineBreaks(w: string, rest: string)
    requires '\n' !in w
    ensures Lines(w + ("\r\n" + rest)) == [w] + Lines(rest)
    ensures w == "" || w[|w| - 1] != '\r' ==> Lines(w + ("\n" + rest)) == [w] + Lines(rest)
  {
    hide Lines, DropReturn;
    DropReturnIs(w);
    ReturnBefore(w, rest);
    LinesCons(w + "\r", rest);
    LinesCons(w, rest);
  }

  ghost predicate SingleLines(lines: seq<string>) {
    forall i :: 0 <= i < |lines| ==> '\n' !in lines[i]
  }

  lemma DropReturnsCons(w: string, rest: seq<string>)
    ensures DropReturns([w] + rest) == [DropReturn(w)] + DropReturns(rest)
  {}

  lemma JoinCons(w: string, rest: seq<string>)
    ensures Join([w] + rest, "\n") + "\n" == w + ("\n" + if rest == [] then "" else Join(rest, "\n") + "\n")
  {
    assert ([w] + rest)[0] == w && ([w] + rest)[1..] == rest;
    if rest == [] { assert [w] + rest == [w]; }
  }

  lemma {:induction false} LinesOfJoin(lines: seq<string>)
    requires lines != [] && SingleLines(lines)
    ensures Lines(Join(lines, "\n") + "\n") == DropReturns(lines)
    decreases |lines|
  {
    var w, rest := lines[0], lines[1..];
    var text := if rest == [] then "" else Join(rest, "\n") + "\n";
    assert lines == [w] + rest && '\n' !in w;
    JoinCons(w, rest);
    LinesCons(w, text);
    DropReturnsCons(w, rest);
    if rest == [] {
      assert Lines("") == [] && DropReturns(rest) == [];
    } else {
      LinesOfJoin(rest);
    }
    hide *;
  }

  /** A joined text ends in a newline exactly when its last of several lines is empty. */
  lemma {:induction false} JoinEnds(lines: seq<string>)
    requires lines != [] && SingleLines(lines)
    ensures var text := Join(lines, "\n");
      var n := |lines| - 1;
      if n > 0 && lines[n] == "" then text == Join(lines[..n], "\n") + "\n"
      else text == "" || text[|text| - 1] != '\n'
    decreases |lines|
  {
    var n := |lines| - 1;
    if n > 0 {
      JoinEnds(lines[1..]);
      if n == 1 {
        assert lines[1..] == [lines[1]] && lines[..1] == [lines[0]];
      } else {
        assert lines[1..][..n - 1] == lines[..n][1..];
      }
    }
  }

  /** The lines that survive printing: a last empty line does not, and an empty file gains one. */
  function Surviving(lines: seq<string>): seq<string> {
    if lines == [] then [""]
    else if |lines| > 1 && lines[|lines| - 1] == "" then lines[..|lines| - 1]
    else lines
  }

  ghost predicate AllFit(lines: seq<string>) {
    forall i :: 0 <= i < |lines| ==> Fits(lines[i])
  }

  lemma ScansCons(w: string, rest: string)
    requires '\n' !in w
    ensures Scans(w + ("\n" + rest)) <==> Fits(w) && Scans(rest)
  {
    var s := w + ("\n" + rest);
    LineEndIs(w, rest);
    assert s[..|w|] == w && s[|w| + 1..] == rest;
  }

  lemma {:induction false} AsciiLength(s: string)
    requires forall i :: 0 <= i < |s| ==> s[i] as int < 0x80
    ensures ByteLength(s) == |s|
    decreases |s|
  {
    if s != "" { AsciiLength(s[1..]); }
  }

  /** A single line of plain characters is read if and only if it is shorter than 64 KiB. */
  lemma ScanLimit(s: string)
    requires forall i :: 0 <= i < |s| ==> s[i] as int < 0x80 && s[i] != '\n'
    ensures Scans(s) <==> |s| < 64 * 1024
  {
    AsciiLength(s);
    assert LineEnd(s) == |s| && s[..|s|] == s;
  }

  lemma {:induction false} ScansJoin(lines: seq<string>)
    requires lines != [] && SingleLines(lines)
    ensures Scans(Join(lines, "\n") + "\n") <==> AllFit(lines)
    decreases |lines|
  {
    hide Fits;
    var text := Join(lines, "\n") + "\n";
    if |lines| == 1 {
      assert text == lines[0] + ("\n" + "");
      ScansCons(lines[0], "");
    } else {
      var rest := Join(lines[1..], "\n") + "\n";
      assert text == lines[0] + ("\n" + rest);
      ScansCons(lines[0], rest);
      ScansJoin(lines[1..]);
      AllFitCons(lines);
    }
  }

  lemma AllFitCons(lines: seq<string>)
    requires lines != []
    ensures AllFit(lines) <==> Fits(lines[0]) && AllFit(lines[1..])
  {
    hide Fits;
    if AllFit(lines) {
      forall i | 0 <= i < |lines[1..]| ensures Fits(lines[1..][i]) { assert lines[1..][i] == lines[i + 1]; }
    }
    if Fits(lines[0]) && AllFit(lines[1..]) {
      forall i | 0 <= i < |lines| ensures Fits(lines[i]) { if i > 0 { assert lines[1..][i - 1] == lines[i]; } }
    }
  }

  lemma SurvivingFit(lines: seq<string>)
    ensures AllFit(Surviving(lines)) <==> AllFit(lines)
  {
    assert Fits("");
    hide Fits;
  }

  lemma PrintIsJoin(es: seq<Entry>)
    requires SingleLines(Raws(es))
    ensures Print(es) == Join(Surviving(Raws(es)), "\n") + "\n"
  {
    if es != [] { JoinEnds(Raws(es)); }
  }

  /** A written file can be read again exactly when every line fits. */
  lemma PrintScans(es: seq<Entry>)
    requires SingleLines(Raws(es))
    ensures Scans(Print(es)) <==> AllFit(Raws(es))
  {
    var lines := Surviving(Raws(es));
    assert lines != [] && SingleLines(lines);
    PrintIsJoin(es);
    SurvivingFit(Raws(es));
    ScansJoin(lines);
    hide *;
  }

  lemma LinesOfPrint(es: seq<Entry>)
    requires SingleLines(Raws(es))
    ensures Lines(Print(es)) == DropReturns(Surviving(Raws(es)))
  {
    var lines := Surviving(Raws(es));
    assert lines != [] && SingleLines(lines);
    PrintIsJoin(es);
    LinesOfJoin(lines);
    hide *;
  }

  lemma {:induction false} TrimDropSpace(s: string)
    requires s != "" && IsSpace(s[|s| - 1])
    ensures Trim(s[..|s| - 1]) == Trim(s)
    decreases |s|
  {
    var t := s[..|s| - 1];
    if IsSpace(s[0]) && |s| > 1 {
      assert t[1..] == s[1..][..|s| - 2];
      TrimDropSpace(s[1..]);
    }
  }

  lemma ParseDropReturn(isIp: IpTest, line: string)
    ensures var p, q := ParseLine(isIp, DropReturn(line)), ParseLine(isIp, line);
      p.active == q.active && p.ip == q.ip && p.hosts == q.hosts
  {
    if line != "" && line[|line| - 1] == '\r' { TrimDropSpace(line); }
  }

  lemma {:induction false} ActiveOfParsed(isIp: IpTest, es: seq<Entry>)
    requires AllParseBack(isIp, es)
    ensures Active(ParseAll(isIp, DropReturns(Raws(es)))) == Active(es)
    decreases |es|
  {
    if es != [] {
      var ps := ParseAll(isIp, DropReturns(Raws(es)));
      assert ps[1..] == ParseAll(isIp, DropReturns(Raws(es[1..])));
      ActiveOfParsed(isIp, es[1..]);
      ParseDropReturn(isIp, es[0].raw);
      assert ParsesBack(isIp, es[0]);
    }
  }

  lemma {:induction false} ActiveAppend(es: seq<Entry>, fs: seq<Entry>)
    ensures Active(es + fs) == Active(es) + Active(fs)
    decreases |es|
  {
    if es == [] {
      assert es + fs == fs;
    } else {
      assert (es + fs)[0] == es[0] && (es + fs)[1..] == es[1..] + fs;
      ActiveAppend(es[1..], fs);
    }
  }

  lemma BlankIsInactive(isIp: IpTest, e: Entry)
    requires ParsesBack(isIp, e) && e.raw == ""
    ensures !e.active
  {}

  /** An inactive last entry adds nothing to the table. */
  lemma ActiveDropLast(es: seq<Entry>)
    requires es != [] && !es[|es| - 1].active
    ensures Active(es[..|es| - 1]) == Active(es)
  {
    var n := |es| - 1;
    assert es == es[..n] + [es[n]];
    ActiveAppend(es[..n], [es[n]]);
    assert Active([es[n]]) == [];
  }

  lemma RawsAreSingleLines(isIp: IpTest, es: seq<Entry>)
    requires AllParseBack(isIp, es)
    ensures SingleLines(Raws(es))
  {
    forall i | 0 <= i < |es| ensures '\n' !in Raws(es)[i] { assert ParsesBack(isIp, es[i]); }
  }

  lemma BlankFile(isIp: IpTest)
    ensures Active(ParseAll(isIp, DropReturns([""]))) == []
  {
    assert DropReturns([""]) == [""];
    assert ParseAll(isIp, [""]) == [ParseLine(isIp, "")];
  }

  /** Persistence: a printed file can be read again exactly when every line fits the scanner, and
      then has the same active table, for every list of entries whose raw lines carry what they
      say. */
  lemma PrintPreservesActive(isIp: IpTest, es: seq<Entry>)
    requires AllParseBack(isIp, es)
    ensures var r := Load(isIp, Print(es));
      (r.Ok? <==> AllFit(Raws(es))) && (r.Ok? ==> Active(r.value) == Active(es))
  {
    hide Print, Lines, ParsesBack, Scans, AllFit;
    RawsAreSingleLines(isIp, es);
    LinesOfPrint(es);
    PrintScans(es);
    if es == [] {
      BlankFile(isIp);
    } else if |es| > 1 && es[|es| - 1].raw == "" {
      var n := |es| - 1;
      assert Surviving(Raws(es)) == Raws(es[..n]);
      ActiveOfParsed(isIp, es[..n]);
      BlankIsInactive(isIp, es[n]);
      ActiveDropLast(es);
    } else {
      ActiveOfParsed(isIp, es);
    }
  }

  /** The whole list of entries comes back unchanged exactly when it is not empty and does not end
      in an empty line after others. */
  lemma PrintPreservesEntries(isIp: IpTest, es: seq<Entry>)
    requires forall i :: 0 <= i < |es| ==> es[i] == ParseLine(isIp, es[i].raw) && '\n' !in es[i].raw
    requires forall i :: 0 <= i < |es| ==> DropReturn(es[i].raw) == es[i].raw
    ensures ParseFile(isIp, Print(es)) == es <==> es != [] && (|es| == 1 || es[|es| - 1].raw != "")
  {
    hide Lines, Print, ParseLine, DropReturn;
    LinesOfPrint(es);
    RawsParse(isIp, es);
    if es == [] {
      assert |ParseAll(isIp, DropReturns(Surviving(Raws(es))))| == 1;
    } else if |es| > 1 && es[|es| - 1].raw == "" {
      assert |ParseAll(isIp, DropReturns(Surviving(Raws(es))))| == |es| - 1;
    } else {
      assert Surviving(Raws(es)) == Raws(es);
    }
  }

  lemma RawsParse(isIp: IpTest, es: seq<Entry>)
    requires forall i :: 0 <= i < |es| ==> es[i] == ParseLine(isIp, es[i].raw) && DropReturn(es[i].raw) == es[i].raw
    ensures ParseAll(isIp, DropReturns(Raws(es))) == es
  {
    hide ParseLine, DropReturn;
  }
}
