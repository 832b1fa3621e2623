/** write_key_file and read_key_file as the loops they are. */
module KeyFiles {
  import opened Buffers
  import opened KeyFileModel
  import opened Sequences

  /** format_hex_ex (data, size, 0, 16, "\n"). */
  method FormatHexEx(data: seq<byte>) returns (out: string)
    ensures out == FormatHex(data)
  {
    out := "";
    for i := 0 to |data|
      invariant out == FormatHex(data[..i])
    {
      assert data[..i + 1][..i] == data[..i];
      if i > 0 && i % PER_LINE == 0 {
        out := out + "\n";
      }
      out := out + Hex2(data[i]);
    }
    assert data[..|data|] == data;
  }

  /** write_key_file; the random keys are its input, the text of the file its output. */
  method WriteKeyFile(keys: seq<seq<byte>>) returns (file: string)
    requires WholeKeys(keys)
    ensures file == KeyFile(keys)
  {
    hide FormatHex, HeadLine, FootLine, Decimal;
    var out := HeadLine() + "\n";
    var nbits := 0;
    for i := 0 to |keys|
      invariant out == HeadLine() + "\n" + KeyLines(keys[..i]) && nbits == i * ONE_KEY * 8
    {
      assert keys[..i + 1][..i] == keys[..i];
      var fmt := FormatHexEx(keys[i]);
      nbits := nbits + ONE_KEY * 8;
      out := out + (fmt + "\n");
    }
    assert keys[..|keys|] == keys;
    out := out + (FootLine() + "\n");
    var head := "#\n" + ("# " + Decimal(nbits) + " bit OpenVPN static key") + "\n" + "#\n";
    file := head + out;
  }

  /** A character of the key area: the second digit of a byte completes it. */
  method ReadHex(c: char, half: seq<nat>, out: array<byte>, count: nat)
    returns (ok: bool, stage': Stage, half': seq<nat>, count': nat)
    requires out.Length == KEYS && Sound(Data, half, count)
    modifies out
    ensures Sound(stage', half', count') && count' >= count
    ensures forall i | count' <= i < KEYS :: out[i] == old(out[i])
    ensures forall p: Parse :: p.Parse? && p.stage == Data && p.half == half && p.out == old(out[..count]) ==>
              KeyChar(p, c) == if ok then p.(stage := stage', half := half', out := out[..count']) else Fatal(p.lineNum)
  {
    ok, stage', half', count' := true, Data, half, count;
    if IsXDigit(c) {
      if half == [] {
        half' := [HexVal(c)];
      } else {
        half' := [];
        out[count] := ((half[0] * 16 + HexVal(c)) % 256) as byte;
        count' := count + 1;
        if count' == KEYS {
          stage' := Complete;
        }
      }
    } else if !IsSpace(c) {
      ok := false;
    }
  }

  /** The body of read_key_file's inner loop; out[..count] is what the output pointer has passed. */
  method ReadChar(c: char, stage: Stage, lineNum: nat, lineIndex: nat, matched: nat, half: seq<nat>, out: array<byte>, count: nat)
    returns (ok: bool, stage': Stage, lineNum': nat, lineIndex': nat, matched': nat, half': seq<nat>, count': nat)
    requires out.Length == KEYS && Sound(stage, half, count)
    modifies out
    ensures Sound(stage', half', count') && count' >= count
    ensures forall i | count' <= i < KEYS :: out[i] == old(out[i])
    ensures (if ok then Parse(stage', lineNum', lineIndex', matched', half', out[..count']) else Fatal(lineNum'))
            == NextChar(Parse(stage, lineNum, lineIndex, matched, half, old(out[..count])), c)
  {
    hide HeadLine, FootLine, HexVal;
    LineFacts();
    ok, stage', lineNum', lineIndex', matched', half', count' := true, stage, lineNum, lineIndex, matched, half, count;
    if c == '\n' {
      lineIndex', matched' := 0, 0;
      lineNum' := lineNum + 1;
    } else {
      if lineIndex == 0 {
        if stage' == Head {
          stage' := Data;
        }
        if (stage' == Data || stage' == Complete) && c == '-' {
          stage' := Foot;
        }
      }
      if stage' == Initial {
        if lineIndex < |HeadLine()| && c == HeadLine()[lineIndex] {
          matched' := matched' + 1;
          if matched' == |HeadLine()| {
            stage' := Head;
          }
        }
      }
      if stage' == Foot {
        if lineIndex < |FootLine()| && c == FootLine()[lineIndex] {
          matched' := matched' + 1;
          if matched' == |FootLine()| {
            stage' := Finished;
          }
        }
      }
      if stage' == Data {
        ok, stage', half', count' := ReadHex(c, half, out, count);
      }
      lineIndex' := lineIndex + 1;
    }
  }

  /** No byte before the header, room for one more while reading; at most one digit pending. */
  predicate Sound(stage: Stage, half: seq<nat>, count: nat) {
    && |half| <= 1
    && count <= KEYS
    && (stage == Initial || stage == Head ==> count == 0)
    && (stage == Data ==> count < KEYS)
  }

  lemma {:induction false} FatalStays(p: Parse, text: string)
    requires p.Fatal?
    ensures Run(p, text) == p
  {
    if text != "" {
      FatalStays(p, text[..|text| - 1]);
    }
  }

  /**
    read_key_file, given what each read returns: the result depends on the bytes of the file alone,
    not on how the reads cut it, and a non-hex character stops it.
  */
  method ReadKeyFile(chunks: seq<string>, mustSucceed: bool) returns (r: ReadResult)
    requires forall i | 0 <= i < |chunks| :: chunks[i] != ""
    ensures r == Outcome(Run(START, Joined(chunks)), mustSucceed)
  {
    hide NextChar, Run, Joined;
    var out := new byte[KEYS](_ => 0);
    var stage, lineNum: nat, lineIndex: nat, matched: nat, half: seq<nat>, count: nat := Initial, 1, 0, 0, [], 0;
    ghost var sofar := "";
    RunNothing(START);
    JoinedNone();
    for i := 0 to |chunks|
      invariant Sound(stage, half, count) && sofar == Joined(chunks[..i]) && forall k | count <= k < KEYS :: out[k] == 0
      invariant Parse(stage, lineNum, lineIndex, matched, half, out[..count]) == Run(START, sofar)
    {
      var size := |chunks[i]|;
      ghost var before := sofar;
      assert before + chunks[i][..0] == before;
      while size > 0
        invariant 0 <= size <= |chunks[i]| && Sound(stage, half, count) && forall k | count <= k < KEYS :: out[k] == 0
        invariant sofar == before + chunks[i][..|chunks[i]| - size]
        invariant Parse(stage, lineNum, lineIndex, matched, half, out[..count]) == Run(START, sofar)
      {
        var c := chunks[i][|chunks[i]| - size];
        var ok;
        ok, stage, lineNum, lineIndex, matched, half, count := ReadChar(c, stage, lineNum, lineIndex, matched, half, out, count);
        RunMore(START, sofar, c);
        sofar := sofar + [c];
        size := size - 1;
        assert sofar == before + chunks[i][..|chunks[i]| - size];
        if !ok {
          Stopped(chunks, i, |chunks[i]| - size);
          return Failed;
        }
      }
      JoinedNext(chunks, i);
      assert chunks[i][..|chunks[i]|] == chunks[i];
    }
    assert chunks[..|chunks|] == chunks;
    r := Result(out, count, stage, mustSucceed);
  }

  lemma RunMore(p: Parse, text: string, c: char)
    ensures Run(p, text + [c]) == NextChar(Run(p, text), c)
  {
    assert (text + [c])[..|text|] == text;
  }

  lemma JoinedNone()
    ensures Joined<char>([]) == ""
  {
  }

  lemma CutInside(before: string, chunk: string, after: string, j: nat)
    requires j <= |chunk|
    ensures before + chunk + after == before + chunk[..j] + (chunk[j..] + after)
  {
    assert chunk == chunk[..j] + chunk[j..];
  }

  /** Nothing read after a fatal character makes a difference. */
  lemma Stopped(chunks: seq<string>, i: nat, j: nat)
    requires i < |chunks| && j <= |chunks[i]| && Run(START, Joined(chunks[..i]) + chunks[i][..j]).Fatal?
    ensures Run(START, Joined(chunks)).Fatal?
  {
    hide Run, Joined;
    var done, rest := Joined(chunks[..i]) + chunks[i][..j], chunks[i][j..] + Joined(chunks[i + 1..]);
    JoinedNext(chunks, i);
    JoinedSplit(chunks, i + 1);
    CutInside(Joined(chunks[..i]), chunks[i], Joined(chunks[i + 1..]), j);
    RunConcat(START, done, rest);
    FatalStays(Run(START, done), rest);
  }

  /** The checks after the loop; the bytes not read are still zero. */
  method Result(out: array<byte>, count: nat, stage: Stage, mustSucceed: bool) returns (r: ReadResult)
    requires out.Length == KEYS && count <= KEYS && forall i | count <= i < KEYS :: out[i] == 0
    ensures forall p: Parse :: p.Parse? && p.stage == stage && p.out == out[..count] ==> r == Outcome(p, mustSucceed)
  {
    var n := count / ONE_KEY;
    if mustSucceed && (n == 0 || stage != Finished) {
      return Failed;
    }
    assert out[..] == out[..count] + Zeros(KEYS - count);
    r := Key2(n, out[..]);
  }
}
