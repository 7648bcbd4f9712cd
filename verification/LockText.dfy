/**
 The text of the name lock: one line per operation, written with Rust's debug quoting and read back
 as TOML. Of TOML only what such lines use is modelled; strings and comments follow the sections
 "Comment", "Keys" and "String" of TOML 1.0.
 */
module LockText {
  import opened Wrappers
  import opened Text

  datatype Entry = Entry(group: string, command: string, fnName: string)

  /** Command names by operation id. */
  type Names = map<string, Entry>

  // ---------------------------------------------------------------------- characters

  predicate IsControl(c: char) {
    c < ' ' || c == '\U{7F}'
  }

  /** What a character class for printing must leave out. */
  ghost predicate Lawful(printable: char -> bool) {
    forall c :: printable(c) ==> !IsControl(c)
  }

  function HexDigit(d: nat): char
    requires d < 16
  {
    if d < 10 then '0' + d as char else 'a' + (d - 10) as char
  }

  function Hex(n: nat): string {
    if n < 16 then [HexDigit(n)] else Hex(n / 16) + [HexDigit(n % 16)]
  }

  /** How `{:?}` writes one character of a string. */
  function Quoted(c: char, printable: char -> bool): string {
    match c
    case '"' => "\\\""
    case '\\' => "\\\\"
    case '\n' => "\\n"
    case '\r' => "\\r"
    case '\t' => "\\t"
    case '\0' => "\\0"
    case _ => if printable(c) then [c] else "\\u{" + Hex(c as nat) + "}"
  }

  /** TOML has an escape for it, or takes it as it is. */
  predicate Writable(c: char, printable: char -> bool) {
    c in {'"', '\\', '\n', '\r', '\t'} || (c != '\0' && printable(c))
  }

  predicate AllWritable(s: string, printable: char -> bool) {
    forall i :: 0 <= i < |s| ==> Writable(s[i], printable)
  }

  function QuoteAll(s: string, printable: char -> bool): string {
    if s == "" then "" else Quoted(s[0], printable) + QuoteAll(s[1..], printable)
  }

  // --------------------------------------------------------------------- TOML strings

  function HexValue(s: string): Option<nat> {
    if s == "" then Some(0)
    else
      var c := s[|s| - 1];
      var d := if '0' <= c <= '9' then Some(c as nat - '0' as nat)
               else if 'a' <= c <= 'f' then Some(10 + c as nat - 'a' as nat)
               else if 'A' <= c <= 'F' then Some(10 + c as nat - 'A' as nat)
               else None;
      match (HexValue(s[..|s| - 1]), d)
      case (Some(n), Some(m)) => Some(16 * n + m)
      case _ => None
  }

  /** The character that `digits` hexadecimal digits name. */
  function Scalar(s: string, digits: nat): Option<char> {
    if |s| < digits then None
    else match HexValue(s[..digits])
      case Some(n) => if n < 0xD800 || 0xE000 <= n < 0x11_0000 then Some(n as char) else None
      case None => None
  }

  /** One character of a basic string, and how much of the text it takes. */
  function ReadChar(s: string): Option<(char, nat)>
    requires s != ""
  {
    if s[0] != '\\' then if IsControl(s[0]) && s[0] != '\t' then None else Some((s[0], 1))
    else if |s| == 1 then None
    else match s[1]
      case '"' => Some(('"', 2))
      case '\\' => Some(('\\', 2))
      case 'n' => Some(('\n', 2))
      case 'r' => Some(('\r', 2))
      case 't' => Some(('\t', 2))
      case 'b' => Some(('\U{8}', 2))
      case 'f' => Some(('\U{C}', 2))
      case 'u' => (match Scalar(s[2..], 4) case Some(c) => Some((c, 6)) case None => None)
      case 'U' => (match Scalar(s[2..], 8) case Some(c) => Some((c, 10)) case None => None)
      case _ => None
  }

  /** The rest of a basic string, up to its closing quote, and what follows that. */
  function ReadString(s: string): Option<(string, string)>
    decreases |s|
  {
    if s == "" then None
    else if s[0] == '"' then Some(("", s[1..]))
    else match ReadChar(s)
      case None => None
      case Some((c, n)) =>
        if n == 0 || n > |s| then None
        else match ReadString(s[n..])
          case None => None
          case Some((more, rest)) => Some(([c] + more, rest))
  }

  lemma QuotedIsRead(c: char, printable: char -> bool, tail: string)
    requires Lawful(printable)
    ensures var s := Quoted(c, printable) + tail;
            && s[0] != '"'
            && ReadChar(s) == if Writable(c, printable) then Some((c, |Quoted(c, printable)|)) else None
  {
    var q := Quoted(c, printable);
    var s := q + tail;
    assert |q| >= 1 && s[0] == q[0] && (|q| >= 2 ==> s[1] == q[1]);
    if !Writable(c, printable) && c != '\0' {
      assert q == "\\u{" + Hex(c as nat) + "}";
      assert s[2] == '{';
      BraceIsNoDigit(s[2..]);
    }
  }

  lemma BraceIsNoDigit(s: string)
    requires s != "" && s[0] == '{'
    ensures Scalar(s, 4) == None
  {
    if |s| >= 4 {
      assert s[..4][..3][..2][..1] == [s[0]];
      assert HexValue([s[0]]) == None;
      assert HexValue(s[..4][..3][..2]) == None;
      assert HexValue(s[..4][..3]) == None;
    }
  }

  /** A debug-quoted string reads back as itself, or not at all when TOML lacks an escape it uses. */
  lemma {:induction false} ReadQuoted(s: string, printable: char -> bool, tail: string)
    requires Lawful(printable)
    ensures ReadString(QuoteAll(s, printable) + "\"" + tail) ==
            if AllWritable(s, printable) then Some((s, tail)) else None
  {
    if s == "" {
      assert QuoteAll(s, printable) + "\"" + tail == "\"" + tail;
    } else {
      var q, more := Quoted(s[0], printable), QuoteAll(s[1..], printable) + "\"" + tail;
      assert QuoteAll(s, printable) + "\"" + tail == q + more;
      QuotedIsRead(s[0], printable, more);
      ReadQuoted(s[1..], printable, tail);
      assert (q + more)[|q|..] == more;
      assert s == [s[0]] + s[1..];
      assert AllWritable(s, printable) <==> Writable(s[0], printable) && AllWritable(s[1..], printable);
    }
  }

  // ---------------------------------------------------------------------------- lines

  predicate IsBareChar(c: char) {
    'a' <= c <= 'z' || 'A' <= c <= 'Z' || '0' <= c <= '9' || c == '_' || c == '-'
  }

  predicate IsBare(k: string) {
    k != "" && forall i :: 0 <= i < |k| ==> IsBareChar(k[i])
  }

  function Quote(s: string, printable: char -> bool): string {
    "\"" + QuoteAll(s, printable) + "\""
  }

  /** `toml_key`: bare if TOML allows that, else quoted. */
  function KeyText(k: string, printable: char -> bool): string {
    if IsBare(k) then k else Quote(k, printable)
  }

  const GROUP := " = { group = "
  const COMMAND := ", command = "
  const FN := ", fn = "
  const CLOSE := " }"

  function LineOf(id: string, e: Entry, printable: char -> bool): string {
    KeyText(id, printable) +
    (GROUP + Quote(e.group, printable) +
     (COMMAND + Quote(e.command, printable) +
      (FN + Quote(e.fnName, printable) + CLOSE)))
  }

  predicate EntryWritable(id: string, e: Entry, printable: char -> bool) {
    && (IsBare(id) || AllWritable(id, printable))
    && AllWritable(e.group, printable) && AllWritable(e.command, printable) && AllWritable(e.fnName, printable)
  }

  function BareLength(s: string): (n: nat)
    ensures n <= |s|
  {
    if s != "" && IsBareChar(s[0]) then 1 + BareLength(s[1..]) else 0
  }

  function ReadKey(s: string): Option<(string, string)> {
    if s != "" && s[0] == '"' then ReadString(s[1..])
    else
      var n := BareLength(s);
      if n == 0 then None else Some((s[..n], s[n..]))
  }

  /** A string behind `lead`, and what follows it. */
  function ReadField(s: string, lead: string): Option<(string, string)> {
    if lead + "\"" <= s then ReadString(s[|lead| + 1..]) else None
  }

  function ReadLine(line: string): Option<(string, Entry)> {
    match ReadKey(line)
    case None => None
    case Some((id, r0)) =>
      match ReadField(r0, GROUP)
      case None => None
      case Some((group, r1)) =>
        match ReadField(r1, COMMAND)
        case None => None
        case Some((command, r2)) =>
          match ReadField(r2, FN)
          case None => None
          case Some((fnName, r3)) => if r3 == CLOSE then Some((id, Entry(group, command, fnName))) else None
  }

  lemma {:induction false} BareIsRead(k: string, tail: string)
    requires (forall i :: 0 <= i < |k| ==> IsBareChar(k[i])) && (tail == "" || !IsBareChar(tail[0]))
    ensures BareLength(k + tail) == |k|
  {
    if k == "" {
      assert k + tail == tail;
    } else {
      assert (k + tail)[1..] == k[1..] + tail;
      BareIsRead(k[1..], tail);
    }
  }

  lemma KeyIsRead(k: string, printable: char -> bool, tail: string)
    requires Lawful(printable) && tail != "" && tail[0] == ' '
    ensures ReadKey(KeyText(k, printable) + tail) ==
            if IsBare(k) || AllWritable(k, printable) then Some((k, tail)) else None
  {
    if IsBare(k) {
      BareKeyIsRead(k, tail);
    } else {
      assert (Quote(k, printable) + tail)[1..] == QuoteAll(k, printable) + "\"" + tail;
      ReadQuoted(k, printable, tail);
    }
  }

  lemma BareKeyIsRead(k: string, tail: string)
    requires IsBare(k) && tail != "" && tail[0] == ' '
    ensures ReadKey(k + tail) == Some((k, tail))
  {
    BareIsRead(k, tail);
    assert (k + tail)[..|k|] == k && (k + tail)[|k|..] == tail && (k + tail)[0] == k[0];
  }

  lemma FieldIsRead(lead: string, v: string, printable: char -> bool, tail: string)
    requires Lawful(printable)
    ensures ReadField(lead + Quote(v, printable) + tail, lead) ==
            if AllWritable(v, printable) then Some((v, tail)) else None
  {
    var s := lead + Quote(v, printable) + tail;
    assert lead + "\"" == s[..|lead| + 1];
    assert s[|lead| + 1..] == QuoteAll(v, printable) + "\"" + tail;
    ReadQuoted(v, printable, tail);
  }

  /** A line reads back as the entry it was written for, or not at all. */
  lemma LineIsRead(id: string, e: Entry, printable: char -> bool)
    requires Lawful(printable)
    ensures ReadLine(LineOf(id, e, printable)) == if EntryWritable(id, e, printable) then Some((id, e)) else None
  {
    var t3 := CLOSE;
    var t2 := FN + Quote(e.fnName, printable) + t3;
    var t1 := COMMAND + Quote(e.command, printable) + t2;
    var t0 := GROUP + Quote(e.group, printable) + t1;
    KeyIsRead(id, printable, t0);
    FieldIsRead(GROUP, e.group, printable, t1);
    FieldIsRead(COMMAND, e.command, printable, t2);
    FieldIsRead(FN, e.fnName, printable, t3);
  }

  // ----------------------------------------------------------------------- whole files

  /** How the file is written: which characters count as printable, and the lines of the notice on top. */
  datatype Style = Style(printable: char -> bool, notice: seq<string>)

  ghost predicate GoodStyle(st: Style) {
    Lawful(st.printable) && forall i :: 0 <= i < |st.notice| ==> IsComment(st.notice[i])
  }

  function VersionLine(version: string, count: nat): string {
    "# spec: forgejo v" + version + ", " + Decimal(count) + " operations"
  }

  function Header(version: string, count: nat, notice: seq<string>): seq<string> {
    notice + [VersionLine(version, count), ""]
  }

  /** What is written for an operation. */
  function Writer(names: Names, printable: char -> bool): string -> string {
    id => if id in names then LineOf(id, names[id], printable) else ""
  }

  function Written(ids: seq<string>, write: string -> string): seq<string> {
    seq(|ids|, i requires 0 <= i < |ids| => write(ids[i]))
  }

  function EntryLines(names: Names, ids: seq<string>, printable: char -> bool): seq<string> {
    Written(ids, Writer(names, printable))
  }

  /** The lines of the file; the last one ends in a line break, hence the empty one behind it. */
  function Lines(names: Names, version: string, st: Style): seq<string> {
    Header(version, |names|, st.notice) + EntryLines(names, InOrder(names.Keys), st.printable) + [""]
  }

  function Render(names: Names, version: string, st: Style): string {
    Joined(Lines(names, version, st), '\n')
  }

  /** `render` appends to one buffer, a line for every operation. */
  method RenderText(names: Names, version: string, st: Style) returns (out: string)
    ensures out == Render(names, version, st)
  {
    var ids := InOrder(names.Keys);
    ghost var header, body := Header(version, |names|, st.notice), EntryLines(names, ids, st.printable);
    out := Ended(Header(version, |names|, st.notice));
    out := AppendLines(out, ids, Writer(names, st.printable));
    EndedConcat(header, body);
    EndedIsJoined(header + body);
  }

  method AppendLines(start: string, ids: seq<string>, write: string -> string) returns (out: string)
    ensures out == start + Ended(Written(ids, write))
  {
    out := start;
    ghost var body := Written(ids, write);
    for i := 0 to |ids|
      invariant out == start + Ended(body[..i])
    {
      var line := write(ids[i]);
      assert body[..i + 1] == body[..i] + [line];
      EndedSnoc(body[..i], line);
      assert start + Ended(body[..i]) + (line + "\n") == start + (Ended(body[..i]) + (line + "\n"));
      out := out + (line + "\n");
    }
    assert body[..|ids|] == body;
  }

  /** Every line followed by a line break. */
  function Ended(lines: seq<string>): string {
    if lines == [] then "" else lines[0] + "\n" + Ended(lines[1..])
  }

  lemma {:induction false} EndedConcat(a: seq<string>, b: seq<string>)
    ensures Ended(a + b) == Ended(a) + Ended(b)
  {
    if a == [] {
      assert a + b == b;
    } else {
      assert (a + b)[1..] == a[1..] + b;
      EndedConcat(a[1..], b);
      assert a[0] + "\n" + (Ended(a[1..]) + Ended(b)) == a[0] + "\n" + Ended(a[1..]) + Ended(b);
    }
  }

  lemma EndedSnoc(lines: seq<string>, line: string)
    ensures Ended(lines + [line]) == Ended(lines) + (line + "\n")
  {
    EndedConcat(lines, [line]);
    assert [line][1..] == [] && Ended([line]) == line + "\n" + "";
  }

  lemma {:induction false} EndedIsJoined(lines: seq<string>)
    ensures Ended(lines) == Joined(lines + [""], '\n')
  {
    if lines == [] {
      assert [] + [""] == [""];
    } else {
      assert (lines + [""])[1..] == lines[1..] + [""];
      EndedIsJoined(lines[1..]);
    }
  }

  predicate IsComment(line: string) {
    line != "" && line[0] == '#' && forall i :: 0 <= i < |line| ==> !IsControl(line[i]) || line[i] == '\t'
  }

  /** The entries of some lines; a line that is neither blank, comment nor entry spoils the file, and so does a repeated key. */
  function ReadLines(lines: seq<string>): Option<Names> {
    if lines == [] then Some(map[])
    else
      var n := |lines| - 1;
      match ReadLines(lines[..n])
      case None => None
      case Some(before) =>
        if lines[n] == "" || IsComment(lines[n]) then Some(before)
        else match ReadLine(lines[n])
          case None => None
          case Some((id, e)) => if id in before then None else Some(before[id := e])
  }

  function Read(text: string): Option<Names> {
    ReadLines(SplitOn(text, '\n'))
  }

  predicate NamesWritable(names: Names, printable: char -> bool) {
    forall id :: id in names ==> EntryWritable(id, names[id], printable)
  }

  predicate PlainVersion(version: string) {
    forall i :: 0 <= i < |version| ==> !IsControl(version[i])
  }

  // ------------------------------------------------------------- what debug quoting writes

  /** Lower-case digits, and no leading zero. */
  lemma {:induction false} HexMeaning(n: nat)
    ensures HexValue(Hex(n)) == Some(n) && Hex(n) != ""
    ensures n > 0 ==> Hex(n)[0] != '0'
    ensures forall i :: 0 <= i < |Hex(n)| ==> '0' <= Hex(n)[i] <= '9' || 'a' <= Hex(n)[i] <= 'f'
  {
    if n < 16 {
      assert [HexDigit(n)][..0] == "";
    } else {
      HexMeaning(n / 16);
      assert Hex(n)[..|Hex(n)| - 1] == Hex(n / 16);
    }
  }

  /** The character that debug quoting writes as `q`. */
  function Unquoted(q: string): Option<char> {
    if |q| == 1 then Some(q[0])
    else if q == "\\\"" then Some('"')
    else if q == "\\\\" then Some('\\')
    else if q == "\\n" then Some('\n')
    else if q == "\\r" then Some('\r')
    else if q == "\\t" then Some('\t')
    else if q == "\\0" then Some('\0')
    else if |q| > 4 && q[..3] == "\\u{" && q[|q| - 1] == '}' then
      match HexValue(q[3..|q| - 1])
      case Some(n) => if n < 0xD800 || 0xE000 <= n < 0x11_0000 then Some(n as char) else None
      case None => None
    else None
  }

  /** Each character is written so that it can be told from every other. */
  lemma QuotedIsUnquoted(c: char, printable: char -> bool)
    ensures Unquoted(Quoted(c, printable)) == Some(c)
    ensures Quoted(c, printable) == [c] <==> printable(c) && c !in {'"', '\\', '\n', '\r', '\t', '\0'}
  {
    var q := Quoted(c, printable);
    HexMeaning(c as nat);
    if |q| > 2 {
      var h := Hex(c as nat);
      assert q == "\\u{" + h + "}" && q[..3] == "\\u{" && q[3..|q| - 1] == h;
    }
  }

  const LETTERS := "abcdefghijklmnopqrstuvwxyz"
  const CAPITALS := "ABCDEFGHIJKLMNOPQRSTUVWXYZ"

  lemma LettersExactly(c: char)
    ensures 'a' <= c <= 'z' <==> c in LETTERS
  {
    assert 'a' <= c <= 'z' ==> LETTERS[c as int - 'a' as int] == c;
  }

  lemma CapitalsExactly(c: char)
    ensures 'A' <= c <= 'Z' <==> c in CAPITALS
  {
    assert 'A' <= c <= 'Z' ==> CAPITALS[c as int - 'A' as int] == c;
  }

  /** Bare keys are made of the letters, digits and two marks that TOML allows in them. */
  lemma BareExactly(c: char)
    ensures IsBareChar(c) <==> c in LETTERS || c in CAPITALS || c in "0123456789" || c in "_-"
  {
    LettersExactly(c);
    CapitalsExactly(c);
    assert '0' <= c <= '9' ==> "0123456789"[c as int - '0' as int] == c;
    assert "_-"[0] == '_' && "_-"[1] == '-';
  }

  /** On top are the notice, the version with the number of operations, and an empty line. */
  lemma HeaderMeaning(version: string, count: nat, notice: seq<string>)
    ensures var h := Header(version, count, notice);
            && |h| == |notice| + 2 && h[..|notice|] == notice && h[|h| - 1] == ""
            && h[|notice|] == "# spec: forgejo v" + version + ", " + Decimal(count) + " operations"
  {
  }

  predicate IsPlain(s: string, printable: char -> bool) {
    forall i :: 0 <= i < |s| ==> printable(s[i]) && s[i] !in {'"', '\\', '\n', '\r', '\t', '\0'}
  }

  lemma {:induction false} PlainIsCopied(s: string, printable: char -> bool)
    requires IsPlain(s, printable)
    ensures QuoteAll(s, printable) == s
  {
    if s != "" {
      PlainIsCopied(s[1..], printable);
    }
  }

  /** The line of an operation whose names need no escapes. */
  lemma PlainLine(id: string, e: Entry, printable: char -> bool)
    requires IsBare(id) && IsPlain(e.group, printable) && IsPlain(e.command, printable) && IsPlain(e.fnName, printable)
    ensures LineOf(id, e, printable) ==
            id + " = { group = \"" + e.group + "\", command = \"" + e.command + "\", fn = \"" + e.fnName + "\" }"
  {
    PlainIsCopied(e.group, printable);
    PlainIsCopied(e.command, printable);
    PlainIsCopied(e.fnName, printable);
    JoinLine(id, e.group, e.command, e.fnName);
  }

  lemma JoinLine(id: string, group: string, command: string, fnName: string)
    ensures id + (GROUP + ("\"" + group + "\"") + (COMMAND + ("\"" + command + "\"") + (FN + ("\"" + fnName + "\"") + CLOSE)))
         == id + " = { group = \"" + group + "\", command = \"" + command + "\", fn = \"" + fnName + "\" }"
  {
    assert GROUP + "\"" == " = { group = \"" && "\"" + COMMAND + "\"" == "\", command = \"";
    assert "\"" + FN + "\"" == "\", fn = \"" && "\"" + CLOSE == "\" }";
  }

  // ------------------------------------------------------------------- one line each

  lemma {:induction false} HexIsPlain(n: nat)
    ensures forall i :: 0 <= i < |Hex(n)| ==> !IsControl(Hex(n)[i])
  {
    if n >= 16 {
      HexIsPlain(n / 16);
    }
  }

  lemma {:induction false} DecimalIsPlain(n: nat)
    ensures forall i :: 0 <= i < |Decimal(n)| ==> !IsControl(Decimal(n)[i])
  {
    if n >= 10 {
      DecimalIsPlain(n / 10);
    }
  }

  predicate NoControl(s: string) {
    forall i :: 0 <= i < |s| ==> !IsControl(s[i])
  }

  lemma {:induction false} QuotedIsPlain(s: string, printable: char -> bool)
    requires Lawful(printable)
    ensures NoControl(QuoteAll(s, printable))
  {
    if s != "" {
      HexIsPlain(s[0] as nat);
      assert NoControl(Quoted(s[0], printable));
      QuotedIsPlain(s[1..], printable);
    }
  }

  lemma PlainConcat(a: string, b: string)
    requires NoControl(a) && NoControl(b)
    ensures NoControl(a + b)
  {
  }

  lemma FieldIsPlain(lead: string, v: string, printable: char -> bool, tail: string)
    requires Lawful(printable) && NoControl(lead) && NoControl(tail)
    ensures NoControl(lead + Quote(v, printable) + tail)
  {
    QuotedIsPlain(v, printable);
    assert NoControl(Quote(v, printable));
    PlainConcat(lead, Quote(v, printable));
    PlainConcat(lead + Quote(v, printable), tail);
  }

  lemma KeyIsPlain(id: string, printable: char -> bool)
    requires Lawful(printable)
    ensures NoControl(KeyText(id, printable))
  {
    QuotedIsPlain(id, printable);
  }

  lemma LineIsPlain(id: string, e: Entry, printable: char -> bool)
    requires Lawful(printable)
    ensures NoControl(LineOf(id, e, printable))
  {
    assert NoControl(GROUP) && NoControl(COMMAND) && NoControl(FN) && NoControl(CLOSE);
    var t2 := FN + Quote(e.fnName, printable) + CLOSE;
    FieldIsPlain(FN, e.fnName, printable, CLOSE);
    var t1 := COMMAND + Quote(e.command, printable) + t2;
    FieldIsPlain(COMMAND, e.command, printable, t2);
    var t0 := GROUP + Quote(e.group, printable) + t1;
    FieldIsPlain(GROUP, e.group, printable, t1);
    KeyIsPlain(id, printable);
    PlainConcat(KeyText(id, printable), t0);
  }

  lemma VersionIsComment(version: string, count: nat)
    requires PlainVersion(version)
    ensures IsComment(VersionLine(version, count))
  {
    DecimalIsPlain(count);
    var a, b := "# spec: forgejo v", " operations";
    PlainConcat(a, version);
    PlainConcat(a + version, ", ");
    PlainConcat(a + version + ", ", Decimal(count));
    PlainConcat(a + version + ", " + Decimal(count), b);
    assert VersionLine(version, count)[0] == '#';
  }

  ghost predicate OnlyComments(lines: seq<string>) {
    forall i :: 0 <= i < |lines| ==> lines[i] == "" || IsComment(lines[i])
  }

  lemma HeaderIsComments(version: string, count: nat, notice: seq<string>)
    requires PlainVersion(version) && forall i :: 0 <= i < |notice| ==> IsComment(notice[i])
    ensures OnlyComments(Header(version, count, notice))
  {
    VersionIsComment(version, count);
  }

  /** The file holds its header and one line for every operation, in order, whatever the names are made of. */
  lemma OneLineEach(names: Names, version: string, st: Style)
    requires GoodStyle(st) && PlainVersion(version)
    ensures SplitOn(Render(names, version, st), '\n') == Lines(names, version, st)
  {
    var ids := InOrder(names.Keys);
    var header, body := Header(version, |names|, st.notice), EntryLines(names, ids, st.printable);
    HeaderIsComments(version, |names|, st.notice);
    forall i | 0 <= i < |body| ensures '\n' !in body[i] {
      LineIsPlain(ids[i], names[ids[i]], st.printable);
    }
    assert WithoutChar(header, '\n') && WithoutChar(body, '\n');
    SplitUndoesJoin(header + body + [""], '\n');
  }

  ghost predicate DifferInOne(before: seq<string>, after: seq<string>, n: nat, line: string) {
    n < |before| && after == before[n := line]
  }

  /** Changing what one operation is called changes its line and no other. */
  lemma RenameIsOneLine(names: Names, version: string, st: Style, id: string, e: Entry) returns (n: nat)
    requires id in names
    ensures DifferInOne(Lines(names, version, st), Lines(names[id := e], version, st), n, LineOf(id, e, st.printable))
  {
    assert names[id := e].Keys == names.Keys;
    SameCount(names, names[id := e]);
    var ids, header := InOrder(names.Keys), Header(version, |names|, st.notice);
    var i := OneEntryChanges(names, ids, id, e, st.printable);
    ChangeInside(header, EntryLines(names, ids, st.printable), EntryLines(names[id := e], ids, st.printable), i,
                 LineOf(id, e, st.printable));
    n := |header| + i;
  }

  lemma OneEntryChanges(names: Names, ids: seq<string>, id: string, e: Entry, printable: char -> bool) returns (i: nat)
    requires id in names && id in ids && Increasing(ids) && forall k :: k in ids ==> k in names
    ensures DifferInOne(EntryLines(names, ids, printable), EntryLines(names[id := e], ids, printable), i,
                        LineOf(id, e, printable))
  {
    i :| 0 <= i < |ids| && ids[i] == id;
    var before, after := EntryLines(names, ids, printable), EntryLines(names[id := e], ids, printable);
    LessTrichotomy(id, id);
    forall j | 0 <= j < |ids| && j != i ensures after[j] == before[j] {
      assert Less(ids[j], ids[i]) || Less(ids[i], ids[j]);
    }
    assert after == before[i := LineOf(id, e, printable)];
  }

  lemma ChangeInside(header: seq<string>, before: seq<string>, after: seq<string>, i: nat, line: string)
    requires DifferInOne(before, after, i, line)
    ensures DifferInOne(header + before + [""], header + after + [""], |header| + i, line)
  {
  }

  lemma SameCount<K, V>(a: map<K, V>, b: map<K, V>)
    requires a.Keys == b.Keys
    ensures |a| == |b|
  {
    assert |a| == |a.Keys| && |b| == |b.Keys|;
  }

  // ------------------------------------------------------------------------ round trip

  lemma {:induction false} ReadHeader(lines: seq<string>)
    requires OnlyComments(lines)
    ensures ReadLines(lines) == Some(map[])
  {
    if lines != [] {
      ReadHeader(lines[..|lines| - 1]);
    }
  }

  function Restricted(names: Names, ids: seq<string>): Names
    requires forall id :: id in ids ==> id in names
  {
    map id | id in ids :: names[id]
  }

  /** `line` is an entry line, read as `id` and `e` when `ok` and not at all otherwise. */
  ghost predicate ReadsAs(line: string, id: string, e: Entry, ok: bool) {
    line != "" && !IsComment(line) && ReadLine(line) == if ok then Some((id, e)) else None
  }

  lemma ReadOneMore(lines: seq<string>, line: string, id: string, e: Entry, ok: bool)
    requires ReadsAs(line, id, e, ok)
    ensures ReadLines(lines + [line]) ==
            match ReadLines(lines)
            case None => None
            case Some(before) => if ok && id !in before then Some(before[id := e]) else None
  {
    assert (lines + [line])[..|lines|] == lines;
  }

  ghost predicate AllOk(ids: seq<string>, ok: string -> bool) {
    forall id :: id in ids ==> ok(id)
  }

  ghost predicate AllReadAs(ids: seq<string>, names: Names, write: string -> string, ok: string -> bool) {
    forall id :: id in ids ==> id in names && ReadsAs(write(id), id, names[id], ok(id))
  }

  lemma {:induction false} ReadBody(header: seq<string>, names: Names, ids: seq<string>, write: string -> string,
                                    ok: string -> bool)
    requires ReadLines(header) == Some(map[]) && AllReadAs(ids, names, write, ok) && Increasing(ids)
    ensures ReadLines(header + Written(ids, write)) == if AllOk(ids, ok) then Some(Restricted(names, ids)) else None
    decreases |ids|
  {
    if ids == [] {
      assert header + Written(ids, write) == header;
      assert Restricted(names, ids) == map[];
    } else {
      var init, last := ids[..|ids| - 1], ids[|ids| - 1];
      LastApart(ids, names, write, ok);
      ReadBody(header, names, init, write, ok);
      ReadOneMore(header + Written(init, write), write(last), last, names[last], ok(last));
      WrittenSnoc(header, ids, write);
      RestrictedSnoc(names, ids);
    }
  }

  lemma LastApart(ids: seq<string>, names: Names, write: string -> string, ok: string -> bool)
    requires ids != [] && AllReadAs(ids, names, write, ok) && Increasing(ids)
    ensures var init, last := ids[..|ids| - 1], ids[|ids| - 1];
            && AllReadAs(init, names, write, ok) && Increasing(init) && last !in init
            && last in names && ReadsAs(write(last), last, names[last], ok(last))
            && (AllOk(ids, ok) <==> AllOk(init, ok) && ok(last))
  {
    LastIsNew(ids);
    assert ids == ids[..|ids| - 1] + [ids[|ids| - 1]];
  }

  lemma WrittenSnoc(header: seq<string>, ids: seq<string>, write: string -> string)
    requires ids != []
    ensures header + Written(ids, write) == header + Written(ids[..|ids| - 1], write) + [write(ids[|ids| - 1])]
  {
  }

  lemma RestrictedSnoc(names: Names, ids: seq<string>)
    requires ids != [] && forall id :: id in ids ==> id in names
    ensures var init, last := ids[..|ids| - 1], ids[|ids| - 1];
            && Restricted(names, ids) == Restricted(names, init)[last := names[last]]
            && (last in Restricted(names, init) <==> last in init)
  {
    assert ids == ids[..|ids| - 1] + [ids[|ids| - 1]];
  }

  ghost function IsOk(names: Names, printable: char -> bool): string -> bool {
    id => id in names && EntryWritable(id, names[id], printable)
  }

  lemma EntriesReadAs(names: Names, printable: char -> bool)
    requires Lawful(printable)
    ensures forall id :: id in names ==> ReadsAs(Writer(names, printable)(id), id, names[id], IsOk(names, printable)(id))
  {
    forall id | id in names ensures ReadsAs(Writer(names, printable)(id), id, names[id], IsOk(names, printable)(id)) {
      LineIsRead(id, names[id], printable);
      LineIsEntry(id, names[id], printable);
    }
  }

  lemma LastIsNew(ids: seq<string>)
    requires ids != [] && Increasing(ids)
    ensures ids[|ids| - 1] !in ids[..|ids| - 1]
  {
    LessTrichotomy(ids[|ids| - 1], ids[|ids| - 1]);
  }

  lemma LineIsEntry(id: string, e: Entry, printable: char -> bool)
    ensures LineOf(id, e, printable) != "" && !IsComment(LineOf(id, e, printable))
  {
    assert KeyText(id, printable) != "" && KeyText(id, printable)[0] != '#';
    assert LineOf(id, e, printable)[0] == KeyText(id, printable)[0];
  }

  /**
   A rendered lock reads back as exactly the names it was rendered from, when all of them can be
   written; otherwise it does not read at all.
   */
  lemma ReadRender(names: Names, version: string, st: Style)
    requires GoodStyle(st) && PlainVersion(version)
    ensures Read(Render(names, version, st)) == if NamesWritable(names, st.printable) then Some(names) else None
  {
    var header, body := Header(version, |names|, st.notice), EntryLines(names, InOrder(names.Keys), st.printable);
    OneLineEach(names, version, st);
    HeaderIsComments(version, |names|, st.notice);
    ReadHeader(header);
    ReadEntries(header, names, st.printable);
    ReadTrailing(header + body);
  }

  lemma ReadTrailing(lines: seq<string>)
    ensures ReadLines(lines + [""]) == ReadLines(lines)
  {
    assert (lines + [""])[..|lines|] == lines;
  }

  lemma ReadEntries(header: seq<string>, names: Names, printable: char -> bool)
    requires Lawful(printable) && ReadLines(header) == Some(map[])
    ensures ReadLines(header + EntryLines(names, InOrder(names.Keys), printable)) ==
            if NamesWritable(names, printable) then Some(names) else None
  {
    var ids := InOrder(names.Keys);
    EntriesReadAs(names, printable);
    ReadBody(header, names, ids, Writer(names, printable), IsOk(names, printable));
    AllInOrder(names, printable);
  }

  lemma AllInOrder(names: Names, printable: char -> bool)
    ensures Restricted(names, InOrder(names.Keys)) == names
    ensures AllOk(InOrder(names.Keys), IsOk(names, printable)) <==> NamesWritable(names, printable)
  {
    var ids, ok := InOrder(names.Keys), IsOk(names, printable);
    assert forall id :: id in names ==> (ok(id) <==> EntryWritable(id, names[id], printable));
  }

  /** So different names, as long as they can be written, never render alike. */
  lemma RenderIsInjective(a: Names, v: string, b: Names, w: string, st: Style)
    requires GoodStyle(st) && PlainVersion(v) && PlainVersion(w)
    requires NamesWritable(a, st.printable) && Render(a, v, st) == Render(b, w, st)
    ensures a == b
  {
    ReadRender(a, v, st);
    ReadRender(b, w, st);
  }
}
