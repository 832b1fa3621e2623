/**
  The static key file (crypto.c:976-1282): what write_key_file prints, and the character machine
  that read_key_file runs over whatever pieces the file arrives in.
*/
module KeyFileModel {
  import opened Buffers
  import opened Sequences

  function HeadLine(): string {
    "-----BEGIN OpenVPN Static key V1-----"
  }

  function FootLine(): string {
    "-----END OpenVPN Static key V1-----"
  }

  const ONE_KEY := 128
  const KEYS := 256
  const PER_LINE := 16

  // ------------------------------------------------------------------ printing

  /** "%02x", one digit. */
  function HexDigit(v: nat): char
    requires v < 16
  {
    if v < 10 then (('0' as int) + v) as char else (('a' as int) + v - 10) as char
  }

  function Hex2(b: byte): string {
    [HexDigit(b as nat / 16), HexDigit(b as nat % 16)]
  }

  /** format_hex_ex with 16 bytes a line. */
  function FormatHex(data: seq<byte>): string {
    if data == [] then ""
    else
      var i := |data| - 1;
      FormatHex(data[..i]) + (if i > 0 && i % PER_LINE == 0 then "\n" else "") + Hex2(data[i])
  }

  /** "%d" of a number that is not negative. */
  function Decimal(n: nat): string {
    if n < 10 then [HexDigit(n)] else Decimal(n / 10) + [HexDigit(n % 10)]
  }

  function KeyLines(keys: seq<seq<byte>>): string {
    if keys == [] then "" else KeyLines(keys[..|keys| - 1]) + FormatHex(keys[|keys| - 1]) + "\n"
  }

  function CommentLine(nkeys: nat): string {
    "# " + Decimal(nkeys * ONE_KEY * 8) + " bit OpenVPN static key"
  }

  /** The file write_key_file leaves for these random keys. */
  function KeyFile(keys: seq<seq<byte>>): string {
    "#\n" + CommentLine(|keys|) + "\n" + "#\n" + HeadLine() + "\n" + KeyLines(keys) + FootLine() + "\n"
  }

  // ------------------------------------------------------------------ parsing

  datatype Stage = Initial | Head | Data | Complete | Foot | Finished

  /** The locals of read_key_file; half holds the first digit of a byte when only that has been read. */
  datatype Parse =
    | Parse(stage: Stage, lineNum: nat, lineIndex: nat, matched: nat, half: seq<nat>, out: seq<byte>)
    | Fatal(lineNum: nat)

  const START := Parse(Initial, 1, 0, 0, [], [])

  function HexVal(c: char): (v: nat)
    ensures v < 17
  {
    if '0' <= c <= '9' then c as nat - '0' as nat
    else if 'a' <= c <= 'f' then c as nat - 'a' as nat + 10
    else if 'A' <= c <= 'F' then c as nat - 'A' as nat + 10
    else 16
  }

  predicate IsXDigit(c: char) {
    HexVal(c) < 16
  }

  predicate IsSpace(c: char) {
    c == ' ' || (9 <= c as int <= 13)
  }

  /** At the first character of a line the header line ends and the footer may begin. */
  function AtLineStart(stage: Stage, lineIndex: nat, c: char): Stage {
    if lineIndex != 0 then stage
    else
      var s := if stage == Head then Data else stage;
      if (s == Data || s == Complete) && c == '-' then Foot else s
  }

  /** Comparing with the header or footer line: one more matching character, and the last one moves on. */
  function Compare(p: Parse, text: string, next: Stage, c: char): Parse
    requires p.Parse?
  {
    if p.lineIndex < |text| && c == text[p.lineIndex] then
      p.(matched := p.matched + 1, stage := if p.matched + 1 == |text| then next else p.stage)
    else p
  }

  function KeyChar(p: Parse, c: char): Parse
    requires p.Parse? && p.stage == Data
  {
    if IsXDigit(c) then
      if p.half == [] then p.(half := [HexVal(c)])
      else
        var out := p.out + [((p.half[0] * 16 + HexVal(c)) % 256) as byte];
        p.(half := [], out := out, stage := if |out| == KEYS then Complete else Data)
    else if IsSpace(c) then p
    else Fatal(p.lineNum)
  }

  function NextChar(p: Parse, c: char): Parse {
    if p.Fatal? then p
    else if c == '\n' then p.(lineIndex := 0, matched := 0, lineNum := p.lineNum + 1)
    else
      var p0 := p.(stage := AtLineStart(p.stage, p.lineIndex, c));
      var p1 := if p0.stage == Initial then Compare(p0, HeadLine(), Head, c) else p0;
      var p2 := if p1.stage == Foot then Compare(p1, FootLine(), Finished, c) else p1;
      var p3 := if p2.stage == Data then KeyChar(p2, c) else p2;
      if p3.Fatal? then p3 else p3.(lineIndex := p3.lineIndex + 1)
  }

  function Run(p: Parse, text: string): Parse {
    if text == "" then p else NextChar(Run(p, text[..|text| - 1]), text[|text| - 1])
  }

  lemma {:induction false} RunConcat(p: Parse, a: string, b: string)
    ensures Run(p, a + b) == Run(Run(p, a), b)
  {
    if b == "" {
      assert a + b == a;
    } else {
      assert (a + b)[..|a + b| - 1] == a + b[..|b| - 1];
      RunConcat(p, a, b[..|b| - 1]);
    }
  }

  /** What read_key_file returns: the number of whole keys and the 256 bytes, zero where nothing was read. */
  datatype ReadResult = Key2(n: nat, keys: seq<byte>) | Failed

  function Outcome(p: Parse, mustSucceed: bool): ReadResult {
    if p.Fatal? then Failed
    else
      var n := |p.out| / ONE_KEY;
      if mustSucceed && (n == 0 || p.stage != Finished) then Failed
      else Key2(n, p.out + Zeros(if |p.out| < KEYS then KEYS - |p.out| else 0))
  }

  function Zeros(n: nat): (z: seq<byte>)
    ensures |z| == n && forall i | 0 <= i < n :: z[i] == 0
  {
    seq(n, _ => 0)
  }

  // ------------------------------------------------------------------ reading back what was written

  lemma LineFacts()
    ensures |HeadLine()| == 37 && |FootLine()| == 35
    ensures '\n' !in HeadLine() && '\n' !in FootLine() && FootLine()[0] == '-'
  {
  }

  lemma HexReads(v: nat)
    requires v < 16
    ensures HexVal(HexDigit(v)) == v && HexDigit(v) != '-' && HexDigit(v) != '\n'
  {
  }

  /** In the key area or about to enter it, between two bytes. */
  predicate Reading(p: Parse) {
    p.Parse? && p.half == [] && |p.out| < KEYS && (p.stage == Data || (p.stage == Head && p.lineIndex == 0))
  }

  lemma RunOne(p: Parse, a: char)
    ensures Run(p, [a]) == NextChar(p, a)
  {
    assert [a][..0] == "";
  }

  lemma RunTwo(p: Parse, a: char, b: char)
    ensures Run(p, [a, b]) == NextChar(NextChar(p, a), b)
  {
    hide NextChar;
    RunOne(p, a);
    assert [a, b][..1] == [a];
  }

  lemma FirstDigit(p: Parse, v: nat)
    requires Reading(p) && v < 16
    ensures NextChar(p, HexDigit(v)) == p.(stage := Data, half := [v], lineIndex := p.lineIndex + 1)
  {
    hide HeadLine, FootLine, HexDigit, HexVal;
    HexReads(v);
  }

  lemma SecondDigit(p: Parse, hi: nat, v: nat)
    requires p.Parse? && p.stage == Data && p.half == [hi] && p.lineIndex > 0 && hi < 16 && v < 16
    ensures NextChar(p, HexDigit(v))
            == p.(stage := if |p.out| + 1 == KEYS then Complete else Data, half := [], lineIndex := p.lineIndex + 1,
                  out := p.out + [(hi * 16 + v) as byte])
  {
    hide HeadLine, FootLine, HexDigit, HexVal;
    HexReads(v);
    assert (hi * 16 + v) % 256 == hi * 16 + v;
  }

  lemma DigitsRead(p: Parse, hi: nat, lo: nat)
    requires Reading(p) && hi < 16 && lo < 16
    ensures Run(p, [HexDigit(hi), HexDigit(lo)])
            == p.(stage := if |p.out| + 1 == KEYS then Complete else Data,
                  lineIndex := p.lineIndex + 2, out := p.out + [(hi * 16 + lo) as byte])
  {
    hide NextChar, HexDigit, Run;
    RunTwo(p, HexDigit(hi), HexDigit(lo));
    FirstDigit(p, hi);
    SecondDigit(NextChar(p, HexDigit(hi)), hi, lo);
  }

  lemma ByteReads(p: Parse, b: byte)
    requires Reading(p)
    ensures Run(p, Hex2(b)) == p.(stage := if |p.out| + 1 == KEYS then Complete else Data,
                                  lineIndex := p.lineIndex + 2, out := p.out + [b])
  {
    hide HexDigit, Run, Reading;
    DigitsRead(p, b as nat / 16, b as nat % 16);
  }

  lemma Newline(p: Parse)
    requires p.Parse?
    ensures Run(p, "\n") == p.(lineIndex := 0, matched := 0, lineNum := p.lineNum + 1)
  {
    RunOne(p, '\n');
  }

  /** The printed bytes are read back, whatever the line breaks between them. */
  lemma {:induction false} BytesRead(p: Parse, data: seq<byte>)
    requires Reading(p) && data != [] && |p.out| + |data| <= KEYS
    ensures var q := Run(p, FormatHex(data));
            && q.Parse? && q.half == [] && q.out == p.out + data
            && q.stage == (if |q.out| == KEYS then Complete else Data)
  {
    hide Run, Hex2;
    var i := |data| - 1;
    var init, sep, last := FormatHex(data[..i]), if i > 0 && i % PER_LINE == 0 then "\n" else "", Hex2(data[i]);
    RunConcat(p, init + sep, last);
    RunConcat(p, init, sep);
    var q := Run(p, init);
    RunNothing(p);
    RunNothing(q);
    if i > 0 {
      BytesRead(p, data[..i]);
      if sep == "\n" {
        Newline(q);
      }
    }
    ByteReads(Run(p, init + sep), data[i]);
    assert data[..i] + [data[i]] == data;
    assert p.out + data[..i] + [data[i]] == p.out + data;
  }

  lemma RunNothing(p: Parse)
    ensures Run(p, "") == p
  {
  }

  /** Waiting for the header at the start of a line. */
  predicate Waiting(p: Parse) {
    p.Parse? && p.stage == Initial && p.lineIndex == 0 && p.matched == 0 && p.half == [] && p.out == []
  }

  lemma ShortStep(p: Parse, c: char)
    requires p.Parse? && p.stage == Initial && p.matched <= p.lineIndex < |HeadLine()| - 1 && c != '\n'
    ensures var q := NextChar(p, c);
            q.Parse? && q.(matched := 0) == p.(matched := 0, lineIndex := p.lineIndex + 1) && q.matched <= q.lineIndex
  {
    hide HeadLine, FootLine;
  }

  /** A line shorter than the header cannot be mistaken for it. */
  lemma {:induction false} ShortLine(p: Parse, line: string)
    requires Waiting(p) && |line| < |HeadLine()| && '\n' !in line
    ensures var q := Run(p, line);
            q.Parse? && q.(matched := 0) == p.(lineIndex := |line|) && q.matched <= |line|
  {
    hide NextChar, HeadLine;
    if line != "" {
      ShortLine(p, line[..|line| - 1]);
      ShortStep(Run(p, line[..|line| - 1]), line[|line| - 1]);
    }
  }

  lemma LineRead(p: Parse, line: string)
    requires Waiting(p) && |line| < |HeadLine()| && '\n' !in line
    ensures Waiting(Run(p, line + "\n"))
  {
    hide Run, HeadLine;
    RunConcat(p, line, "\n");
    ShortLine(p, line);
    Newline(Run(p, line));
  }

  lemma HeadStep(p: Parse, i: nat)
    requires p.Parse? && p.stage == Initial && p.lineIndex == p.matched == i < |HeadLine()| && HeadLine()[i] != '\n'
    ensures NextChar(p, HeadLine()[i])
            == p.(lineIndex := i + 1, matched := i + 1, stage := if i + 1 == |HeadLine()| then Head else Initial)
  {
    hide HeadLine, FootLine;
  }

  /** The header is matched character by character. */
  lemma {:induction false} HeadRead(p: Parse, i: nat)
    requires Waiting(p) && i <= |HeadLine()|
    ensures Run(p, HeadLine()[..i]) == p.(lineIndex := i, matched := i, stage := if i == |HeadLine()| then Head else Initial)
  {
    hide HeadLine, NextChar;
    LineFacts();
    assert HeadLine()[..0] == "";
    if i > 0 {
      HeadRead(p, i - 1);
      assert HeadLine()[..i][..i - 1] == HeadLine()[..i - 1];
      HeadStep(Run(p, HeadLine()[..i - 1]), i - 1);
    }
  }

  /** Where the footer may start or has started. */
  predicate AtFoot(p: Parse, i: nat) {
    p.Parse? && p.lineIndex == p.matched == i && if i == 0 then p.stage == Data || p.stage == Complete else p.stage == Foot
  }

  lemma FootStep(p: Parse, i: nat)
    requires i < |FootLine()| && AtFoot(p, i) && FootLine()[i] != '\n' && FootLine()[0] == '-'
    ensures NextChar(p, FootLine()[i])
            == p.(lineIndex := i + 1, matched := i + 1, stage := if i + 1 == |FootLine()| then Finished else Foot)
  {
    hide HeadLine, FootLine;
  }

  lemma {:induction false} FootRead(p: Parse, i: nat)
    requires AtFoot(p, 0) && 0 < i <= |FootLine()|
    ensures Run(p, FootLine()[..i]) == p.(lineIndex := i, matched := i, stage := if i == |FootLine()| then Finished else Foot)
  {
    hide FootLine, NextChar;
    LineFacts();
    assert FootLine()[..i][..i - 1] == FootLine()[..i - 1];
    if i > 1 {
      FootRead(p, i - 1);
    } else {
      assert FootLine()[..0] == "";
    }
    FootStep(Run(p, FootLine()[..i - 1]), i - 1);
  }

  predicate WholeKeys(keys: seq<seq<byte>>) {
    forall i | 0 <= i < |keys| :: |keys[i]| == ONE_KEY
  }

  lemma {:induction false} JoinedLength(keys: seq<seq<byte>>)
    requires WholeKeys(keys)
    ensures |Joined(keys)| == |keys| * ONE_KEY
  {
    if keys != [] {
      JoinedLast(keys);
      JoinedLength(keys[..|keys| - 1]);
    }
  }

  /** The key lines, each key ending its line. */
  lemma {:induction false} KeysRead(p: Parse, keys: seq<seq<byte>>)
    requires WholeKeys(keys) && 1 <= |keys| <= 2 && Reading(p) && p.out == []
    ensures var q := Run(p, KeyLines(keys));
            && q.Parse? && q.half == [] && q.out == Joined(keys) && q.lineIndex == 0 && q.matched == 0
            && q.stage == (if |keys| == 2 then Complete else Data)
  {
    hide Run, FormatHex;
    JoinedLast(keys);
    var init, last := keys[..|keys| - 1], keys[|keys| - 1];
    JoinedLength(keys);
    JoinedLength(init);
    RunConcat(p, KeyLines(init) + FormatHex(last), "\n");
    RunConcat(p, KeyLines(init), FormatHex(last));
    if |keys| == 2 {
      KeysRead(p, init);
    } else {
      assert KeyLines(init) == "" && Joined(init) == [];
      RunNothing(p);
    }
    var q := Run(p, KeyLines(init));
    BytesRead(q, last);
    Newline(Run(q, FormatHex(last)));
  }

  lemma {:induction false} DecimalIsShort(n: nat, digits: nat)
    requires 0 < digits && n < Power10(digits)
    ensures |Decimal(n)| <= digits && '\n' !in Decimal(n)
  {
    if n >= 10 {
      DecimalIsShort(n / 10, digits - 1);
      HexReads(n % 10);
    } else {
      HexReads(n);
    }
  }

  function Power10(n: nat): nat {
    if n == 0 then 1 else 10 * Power10(n - 1)
  }

  lemma TenThousand()
    ensures Power10(4) == 10000
  {
    assert Power10(4) == 10 * Power10(3) == 100 * Power10(2) == 1000 * Power10(1);
  }

  lemma CommentIsShort(nkeys: nat)
    requires nkeys <= 2
    ensures |CommentLine(nkeys)| < |HeadLine()| && '\n' !in CommentLine(nkeys)
  {
    hide Power10, Decimal;
    TenThousand();
    DecimalIsShort(nkeys * ONE_KEY * 8, 4);
  }

  /** The part before the keys. */
  lemma PreambleRead(nkeys: nat)
    requires nkeys <= 2
    ensures var q := Run(START, "#\n" + CommentLine(nkeys) + "\n" + "#\n");
            Waiting(q)
  {
    hide Run, CommentLine, HeadLine, Waiting;
    CommentIsShort(nkeys);
    LineFacts();
    var a, b := "#" + "\n", CommentLine(nkeys) + "\n";
    StartWaits();
    LineRead(START, "#");
    LineRead(Run(START, a), CommentLine(nkeys));
    LineRead(Run(Run(START, a), b), "#");
    RunConcat(START, a, b);
    RunConcat(START, a + b, a);
    ThreeLines(CommentLine(nkeys));
  }

  lemma StartWaits()
    ensures Waiting(START)
  {
  }

  lemma ThreeLines(line: string)
    ensures "#" + "\n" + (line + "\n") + ("#" + "\n") == "#\n" + line + "\n" + "#\n"
  {
    assert "#" + "\n" == "#\n";
  }

  lemma HeadLineRead(p: Parse)
    requires Waiting(p)
    ensures Reading(Run(p, HeadLine() + "\n")) && Run(p, HeadLine() + "\n").out == []
  {
    hide Run, HeadLine;
    HeadRead(p, |HeadLine()|);
    assert HeadLine()[..|HeadLine()|] == HeadLine();
    RunConcat(p, HeadLine(), "\n");
    Newline(Run(p, HeadLine()));
  }

  lemma FootLineRead(p: Parse)
    requires AtFoot(p, 0)
    ensures var q := Run(p, FootLine() + "\n"); q.Parse? && q.stage == Finished && q.out == p.out
  {
    LineFacts();
    hide Run, FootLine;
    FootRead(p, |FootLine()|);
    assert FootLine()[..|FootLine()|] == FootLine();
    RunConcat(p, FootLine(), "\n");
    Newline(Run(p, FootLine()));
  }

  /** Reading a written key file finishes with the bytes of its one or two keys. */
  lemma FileRead(keys: seq<seq<byte>>)
    requires WholeKeys(keys) && 1 <= |keys| <= 2
    ensures var q := Run(START, KeyFile(keys)); q.Parse? && q.stage == Finished && q.out == Joined(keys)
  {
    hide Run, CommentLine, HeadLine, FootLine, KeyLines, Joined;
    var pre, head, foot := "#\n" + CommentLine(|keys|) + "\n" + "#\n", HeadLine() + "\n", FootLine() + "\n";
    PreambleRead(|keys|);
    HeadLineRead(Run(START, pre));
    RunConcat(START, pre, head);
    KeysRead(Run(START, pre + head), keys);
    RunConcat(START, pre + head, KeyLines(keys));
    FootLineRead(Run(START, pre + head + KeyLines(keys)));
    RunConcat(START, pre + head + KeyLines(keys), foot);
    assert KeyFile(keys) == pre + head + KeyLines(keys) + foot;
  }

  /** For all key bytes and every way of cutting the file, the keys come back and nothing fails. */
  lemma KeyFileRoundTrip(keys: seq<seq<byte>>, chunks: seq<string>, mustSucceed: bool)
    requires WholeKeys(keys) && 1 <= |keys| <= 2 && Joined(chunks) == KeyFile(keys)
    ensures Outcome(Run(START, Joined(chunks)), mustSucceed) == Key2(|keys|, Joined(keys) + Zeros(KEYS - |keys| * ONE_KEY))
  {
    FileRead(keys);
    JoinedLength(keys);
  }
}
