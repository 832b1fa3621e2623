/** Key files that are cut short, spoiled or have no header (crypto.c:987-1158), and the layout of those that are not. */
module KeyFileErrors {
  import opened Buffers
  import opened KeyFileModel
  import opened Sequences

  // ------------------------------------------------------------------ layout

  lemma {:induction false} HexLength(data: seq<byte>)
    requires data != []
    ensures |FormatHex(data)| == 2 * |data| + (|data| - 1) / 16
  {
    hide Hex2;
    HexStep(data);
    if |data| > 1 {
      HexLength(data[..|data| - 1]);
    }
  }

  /** The last byte, and the line break before it. */
  lemma HexStep(data: seq<byte>)
    requires data != []
    ensures var i := |data| - 1;
            FormatHex(data) == FormatHex(data[..i]) + (if i > 0 && i % 16 == 0 then "\n" else "") + Hex2(data[i])
    ensures |Hex2(data[|data| - 1])| == 2 && FormatHex([]) == ""
  {
  }

  /** Byte i stands behind the i bytes before it and a line break for every 16 of them. */
  lemma {:induction false} HexLayout(data: seq<byte>, i: nat)
    requires i < |data|
    ensures var text, at := FormatHex(data), 2 * i + i / 16;
            && at + 2 <= |text|
            && text[at..at + 2] == Hex2(data[i])
            && (i > 0 && i % 16 == 0 ==> text[at - 1] == '\n')
  {
    hide Hex2, FormatHex;
    HexLength(data);
    HexStep(data);
    var last := |data| - 1;
    if last > 0 {
      HexLength(data[..last]);
    }
    if i < last {
      HexLayout(data[..last], i);
      var at := 2 * i + i / 16;
      assert FormatHex(data)[at..at + 2] == FormatHex(data[..last])[at..at + 2];
    }
  }

  /** "%02x" writes lower-case digits, the high one first. */
  lemma HexDigits(b: byte)
    ensures Hex2(b) == ["0123456789abcdef"[b as nat / 16], "0123456789abcdef"[b as nat % 16]]
  {
  }

  lemma LastDigit(n: nat)
    ensures Decimal(n) == if n < 10 then ["0123456789"[n]] else Decimal(n / 10) + ["0123456789"[n % 10]]
  {
  }

  /** The sizes the comment names, in bits. */
  lemma SizesInBits()
    ensures CommentLine(1) == "# " + "1024" + " bit OpenVPN static key"
    ensures CommentLine(2) == "# " + "2048" + " bit OpenVPN static key"
  {
    hide Decimal;
    LastDigit(1024);
    LastDigit(102);
    LastDigit(10);
    LastDigit(1);
    assert Decimal(1024) == "1024";
    LastDigit(2048);
    LastDigit(204);
    LastDigit(20);
    LastDigit(2);
    assert Decimal(2048) == "2048";
  }

  // ------------------------------------------------------------------ cut short

  /** Once finished, and once stopped, nothing read changes that. */
  lemma {:induction false} FinishedStays(p: Parse, text: string)
    requires p.Parse? && p.stage == Finished
    ensures Run(p, text).Parse? && Run(p, text).stage == Finished && Run(p, text).out == p.out
  {
    hide HeadLine, FootLine;
    if text != "" {
      FinishedStays(p, text[..|text| - 1]);
    }
  }

  lemma {:induction false} StoppedStays(p: Parse, text: string)
    requires p.Fatal?
    ensures Run(p, text) == p
  {
    if text != "" {
      StoppedStays(p, text[..|text| - 1]);
    }
  }

  lemma CutOfCut(text: string, n: nat, m: nat)
    requires n <= m <= |text|
    ensures text[..m] == text[..n] + text[n..m]
  {
  }

  /** One character short of the footer's end the parser has not finished. */
  lemma BeforeTheEnd(keys: seq<seq<byte>>)
    requires WholeKeys(keys) && 1 <= |keys| <= 2
    ensures |KeyFile(keys)| >= 2
    ensures var q := Run(START, KeyFile(keys)[..|KeyFile(keys)| - 2]); q.Parse? && q.stage == Foot
  {
    hide Run, CommentLine, HeadLine, FootLine, KeyLines;
    var pre, head := "#\n" + CommentLine(|keys|) + "\n" + "#\n", HeadLine() + "\n";
    LineFacts();
    var front, cut := pre + head + KeyLines(keys), FootLine()[..34];
    PreambleRead(|keys|);
    HeadLineRead(Run(START, pre));
    RunConcat(START, pre, head);
    KeysRead(Run(START, pre + head), keys);
    RunConcat(START, pre + head, KeyLines(keys));
    FootRead(Run(START, front), 34);
    RunConcat(START, front, cut);
    assert KeyFile(keys) == front + FootLine() + "\n";
    assert (front + FootLine() + "\n")[..|front| + 34] == front + cut;
  }

  /** Reading a written file up to any point succeeds exactly when nothing but the last newline is missing. */
  lemma CutShortFailsIff(keys: seq<seq<byte>>, n: nat)
    requires WholeKeys(keys) && 1 <= |keys| <= 2 && n <= |KeyFile(keys)|
    ensures Outcome(Run(START, KeyFile(keys)[..n]), true) == Failed <==> n + 1 < |KeyFile(keys)|
  {
    hide Run, KeyFile;
    var file := KeyFile(keys);
    BeforeTheEnd(keys);
    FileRead(keys);
    assert file[..|file|] == file;
    if n + 1 < |file| {
      CutOfCut(file, n, |file| - 2);
      RunConcat(START, file[..n], file[n..|file| - 2]);
      if Run(START, file[..n]).Parse? && Run(START, file[..n]).stage == Finished {
        FinishedStays(Run(START, file[..n]), file[n..|file| - 2]);
      }
    } else if n + 1 == |file| {
      LastNewline(keys);
      JoinedLength(keys);
    } else {
      JoinedLength(keys);
    }
  }

  /** Without its footer a file still gives its keys to a reader that does not insist on it, and fails for one that does. */
  lemma WithoutFooter(keys: seq<seq<byte>>)
    requires WholeKeys(keys) && 1 <= |keys| <= 2
    ensures var p := Run(START, "#\n" + CommentLine(|keys|) + "\n" + "#\n" + (HeadLine() + "\n") + KeyLines(keys));
            && Outcome(p, false) == Key2(|keys|, Joined(keys) + Zeros(KEYS - |keys| * ONE_KEY))
            && Outcome(p, true) == Failed
  {
    hide Run, CommentLine, HeadLine, FootLine, KeyLines;
    var pre, head := "#\n" + CommentLine(|keys|) + "\n" + "#\n", HeadLine() + "\n";
    PreambleRead(|keys|);
    HeadLineRead(Run(START, pre));
    RunConcat(START, pre, head);
    KeysRead(Run(START, pre + head), keys);
    RunConcat(START, pre + head, KeyLines(keys));
    JoinedLength(keys);
  }

  /** A file with header and footer but less than one key between them fails for a reader that insists. */
  lemma ShortKeyFails(data: seq<byte>)
    requires |data| < ONE_KEY
    ensures Outcome(Run(START, HeadLine() + "\n" + FormatHex(data) + "\n" + (FootLine() + "\n")), true) == Failed
  {
    hide Run, HeadLine, FootLine, FormatHex;
    var head, hex := HeadLine() + "\n", FormatHex(data);
    HeadLineRead(START);
    var p := Run(START, head);
    RunConcat(START, head, hex);
    NoHex();
    RunNothing(p);
    if data != [] {
      BytesRead(p, data);
    }
    var q := Run(START, head + hex);
    RunConcat(START, head + hex, "\n");
    Newline(q);
    RunConcat(START, head + hex + "\n", FootLine() + "\n");
    BeginFoot(Run(q, "\n"));
  }

  lemma BeginFoot(p: Parse)
    requires p.Parse? && p.lineIndex == 0 && p.matched == 0 && (p.stage == Head || p.stage == Data)
    ensures Run(p, FootLine() + "\n").Parse? && Run(p, FootLine() + "\n").out == p.out
  {
    hide Run, FootLine, HeadLine;
    LineFacts();
    var p' := p.(stage := Data);
    FootLineRead(p');
    assert FootLine() + "\n" == [FootLine()[0]] + (FootLine()[1..] + "\n");
    RunConcat(p, [FootLine()[0]], FootLine()[1..] + "\n");
    RunConcat(p', [FootLine()[0]], FootLine()[1..] + "\n");
    RunOne(p, FootLine()[0]);
    RunOne(p', FootLine()[0]);
    SameFirst(p, FootLine()[0]);
  }

  /** At the start of a line the header's end is noticed first. */
  lemma SameFirst(p: Parse, c: char)
    requires p.Parse? && p.lineIndex == 0 && (p.stage == Head || p.stage == Data) && c != '\n'
    ensures NextChar(p, c) == NextChar(p.(stage := Data), c)
  {
    hide HeadLine, FootLine;
  }

  lemma LastNewline(keys: seq<seq<byte>>)
    requires WholeKeys(keys) && 1 <= |keys| <= 2
    ensures |KeyFile(keys)| >= 1
    ensures var q, q' := Run(START, KeyFile(keys)[..|KeyFile(keys)| - 1]), Run(START, KeyFile(keys));
            q.Parse? && q'.Parse? && q.stage == q'.stage && q.out == q'.out
  {
    hide Run, HeadLine, FootLine, CommentLine, KeyLines;
    var file := KeyFile(keys);
    FileRead(keys);
    assert file == file[..|file| - 1] + "\n";
    RunConcat(START, file[..|file| - 1], "\n");
    if Run(START, file[..|file| - 1]).Fatal? {
      StoppedStays(Run(START, file[..|file| - 1]), "\n");
    } else {
      Newline(Run(START, file[..|file| - 1]));
    }
  }

  // ------------------------------------------------------------------ spoiled

  /** Neither a hex digit nor white space. */
  predicate Spoils(c: char) {
    && !('0' <= c <= '9') && !('a' <= c <= 'f') && !('A' <= c <= 'F')
    && c != ' ' && !(9 <= c as int <= 13)
  }

  /** Digits of either case have their value, and nothing else is a digit. */
  lemma HexValues(v: nat, c: char)
    ensures v < 16 ==> HexVal("0123456789abcdef"[v]) == v && HexVal("0123456789ABCDEF"[v]) == v
    ensures IsXDigit(c) <==> '0' <= c <= '9' || 'a' <= c <= 'f' || 'A' <= c <= 'F'
  {
  }

  /** White space among the digits is passed over, carriage returns included. */
  lemma SpacePasses(p: Parse, c: char)
    requires p.Parse? && p.stage == Data && (c == ' ' || c == '\t' || c == '\r')
    ensures NextChar(p, c) == p.(lineIndex := p.lineIndex + 1)
  {
    hide HeadLine, FootLine;
  }

  /** What comes before byte i of key k, and the first digit of that byte if `digit`. */
  function Before(keys: seq<seq<byte>>, k: nat, i: nat, digit: bool): string
    requires WholeKeys(keys) && k < |keys| && i < ONE_KEY
  {
    "#\n" + CommentLine(|keys|) + "\n" + "#\n" + HeadLine() + "\n" + KeyLines(keys[..k]) + FormatHex(keys[k][..i])
    + if digit then Hex2(keys[k][i])[..1] else ""
  }

  lemma BeforeIsPrefix(keys: seq<seq<byte>>, k: nat, i: nat)
    requires WholeKeys(keys) && 1 <= |keys| <= 2 && k < |keys| && i < ONE_KEY
    ensures var q := Run(START, Before(keys, k, i, false));
            q.Parse? && q.half == [] && |q.out| == k * ONE_KEY + i
            && if i == 0 then Reading(q) else q.stage == Data && q.lineIndex > 0
  {
    hide Run, CommentLine, HeadLine, FootLine, KeyLines, FormatHex;
    var pre, head := "#\n" + CommentLine(|keys|) + "\n" + "#\n", HeadLine() + "\n";
    var lines, part := KeyLines(keys[..k]), FormatHex(keys[k][..i]);
    PreambleRead(|keys|);
    HeadLineRead(Run(START, pre));
    RunConcat(START, pre, head);
    var p := Run(START, pre + head);
    RunConcat(START, pre + head, lines);
    KeysBefore(p, keys, k);
    var q := Run(START, pre + head + lines);
    RunConcat(START, pre + head + lines, part);
    assert Before(keys, k, i, false) == pre + head + lines + part;
    if i > 0 {
      BytesRead(q, keys[k][..i]);
      InsideLine(q, keys[k][..i]);
    } else {
      NoHex();
      RunNothing(q);
    }
  }

  lemma NoHex()
    ensures FormatHex([]) == ""
  {
  }

  lemma KeysBefore(p: Parse, keys: seq<seq<byte>>, k: nat)
    requires WholeKeys(keys) && 1 <= |keys| <= 2 && k < |keys| && Reading(p) && p.out == []
    ensures var q := Run(p, KeyLines(keys[..k])); Reading(q) && |q.out| == k * ONE_KEY
  {
    hide Run;
    if k == 1 {
      KeysRead(p, keys[..1]);
      JoinedLength(keys[..1]);
    } else {
      RunNothing(p);
    }
  }

  /** Behind a printed byte the line has begun. */
  lemma InsideLine(p: Parse, data: seq<byte>)
    requires Reading(p) && data != [] && |p.out| + |data| < KEYS
    ensures Run(p, FormatHex(data)).Parse? ==> Run(p, FormatHex(data)).lineIndex > 0
  {
    hide Run, Hex2;
    var i := |data| - 1;
    var init, sep, last := FormatHex(data[..i]), if i > 0 && i % PER_LINE == 0 then "\n" else "", Hex2(data[i]);
    RunConcat(p, init + sep, last);
    RunConcat(p, init, sep);
    RunNothing(p);
    RunNothing(Run(p, init));
    if i > 0 {
      BytesRead(p, data[..i]);
      if sep == "\n" {
        Newline(Run(p, init));
      }
    }
    ByteReads(Run(p, init + sep), data[i]);
  }

  /**
    A character that is no hex digit and no white space anywhere among the key's digits makes the
    read fail, whatever follows; only a dash at the start of a line is taken for the footer.
  */
  lemma SpoiledKeyFails(keys: seq<seq<byte>>, k: nat, i: nat, digit: bool, c: char, rest: string, mustSucceed: bool)
    requires WholeKeys(keys) && 1 <= |keys| <= 2 && k < |keys| && i < ONE_KEY
    requires Spoils(c) && (i == 0 && !digit ==> c != '-')
    ensures Outcome(Run(START, Before(keys, k, i, digit) + [c] + rest), mustSucceed) == Failed
  {
    hide Run, NextChar, Before, HexDigit, Spoils;
    BeforeIsPrefix(keys, k, i);
    var q := Run(START, Before(keys, k, i, false));
    var q' := Run(START, Before(keys, k, i, digit));
    BeforeDigit(keys, k, i);
    if digit {
      RunConcat(START, Before(keys, k, i, false), [HexDigit(keys[k][i] as nat / 16)]);
      RunOne(q, HexDigit(keys[k][i] as nat / 16));
      FirstDigit(q, keys[k][i] as nat / 16);
    }
    AtData(q', c);
    RunConcat(START, Before(keys, k, i, digit), [c]);
    RunOne(q', c);
    RunConcat(START, Before(keys, k, i, digit) + [c], rest);
    StoppedStays(NextChar(q', c), rest);
  }

  lemma BeforeDigit(keys: seq<seq<byte>>, k: nat, i: nat)
    requires WholeKeys(keys) && k < |keys| && i < ONE_KEY
    ensures Before(keys, k, i, true) == Before(keys, k, i, false) + [HexDigit(keys[k][i] as nat / 16)]
  {
    hide HeadLine, CommentLine, KeyLines, FormatHex, HexDigit;
    assert Hex2(keys[k][i])[..1] == [HexDigit(keys[k][i] as nat / 16)];
  }

  lemma AtData(p: Parse, c: char)
    requires p.Parse? && Spoils(c) && (p.lineIndex == 0 ==> c != '-')
    requires p.stage == Data || (p.stage == Head && p.lineIndex == 0)
    ensures NextChar(p, c).Fatal?
  {
    hide HeadLine, FootLine;
  }

  // ------------------------------------------------------------------ no header

  /** Some line begins with the header. */
  predicate HasHeader(text: string) {
    exists i :: 0 <= i <= |text| && (i == 0 || text[i - 1] == '\n') && HeadLine() <= text[i..]
  }

  /** Still before the header: a line that has matched all along is the header's beginning. */
  predicate NoHeaderYet(p: Parse, text: string) {
    && p.Parse? && p.stage == Initial && p.out == [] && p.matched <= p.lineIndex <= |text| && p.matched < |HeadLine()|
    && (p.lineIndex == |text| || text[|text| - p.lineIndex - 1] == '\n')
    && (p.matched == p.lineIndex ==> text[|text| - p.lineIndex..] == HeadLine()[..p.lineIndex])
  }

  lemma NextWithoutHeader(p: Parse, text: string, c: char)
    requires NoHeaderYet(p, text) && !HasHeader(text + [c])
    ensures NoHeaderYet(NextChar(p, c), text + [c])
  {
    hide HeadLine, FootLine;
    LineFacts();
    var more, h := text + [c], HeadLine();
    if c != '\n' && p.matched == p.lineIndex {
      var i := |text| - p.lineIndex;
      assert more[i..] == text[i..] + [c];
      if c == h[p.lineIndex] {
        assert more[i..] == h[..p.lineIndex + 1];
        if p.lineIndex + 1 == |h| {
          assert false;
        }
      }
    } else if c == '\n' {
      assert more[|more|..] == h[..0];
    }
  }

  lemma HeaderStays(text: string, c: char)
    requires HasHeader(text)
    ensures HasHeader(text + [c])
  {
    var i :| 0 <= i <= |text| && (i == 0 || text[i - 1] == '\n') && HeadLine() <= text[i..];
    assert (text + [c])[i..] == text[i..] + [c];
  }

  lemma {:induction false} WithoutHeader(text: string)
    requires !HasHeader(text)
    ensures NoHeaderYet(Run(START, text), text)
  {
    hide HeadLine, NextChar, NoHeaderYet;
    if text == "" {
      NothingYet();
    } else {
      var init := text[..|text| - 1];
      assert text == init + [text[|text| - 1]];
      if HasHeader(init) {
        HeaderStays(init, text[|text| - 1]);
      }
      WithoutHeader(init);
      NextWithoutHeader(Run(START, init), init, text[|text| - 1]);
    }
  }

  lemma NothingYet()
    ensures NoHeaderYet(START, "")
  {
  }

  /** Without a line that begins with the header no key is read, whatever else the file holds. */
  lemma NoHeaderFails(text: string)
    requires !HasHeader(text)
    ensures Outcome(Run(START, text), true) == Failed && Outcome(Run(START, text), false) == Key2(0, Zeros(KEYS))
  {
    WithoutHeader(text);
    assert [] + Zeros(KEYS) == Zeros(KEYS);
  }
}
