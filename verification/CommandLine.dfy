/** struct command_line: two buffers, filled byte by byte and taken apart line by line. */
module CommandLines {
  import opened Buffers
  import opened Options
  import opened CommandLineModel
  import opened Sequences

  class CommandLine {
    const buf: Buffer
    const residual: Buffer

    /** Both buffers start at offset 0 and share nothing. */
    ghost predicate Valid()
      reads this, buf, residual
    {
      && buf != residual && buf.data != residual.data
      && buf.Valid() && residual.Valid() && buf.offset == 0 && residual.offset == 0
      && 0 < buf.data.Length == residual.data.Length
    }

    ghost function Repr(): set<object> {
      {buf, residual, buf.data, residual.data}
    }

    ghost function Pending(): Text
      requires Valid()
      reads this, buf, residual, buf.data
    {
      buf.Contents()
    }

    ghost function Excess(): Text
      requires Valid()
      reads this, buf, residual, residual.data
    {
      residual.Contents()
    }

    /** command_line_new. */
    constructor (bufLen: nat)
      requires 0 < bufLen
      ensures Valid() && fresh(Repr()) && buf.data.Length == bufLen && Pending() == [] && Excess() == []
    {
      buf := new Buffer(bufLen);
      residual := new Buffer(bufLen);
    }

    /** command_line_add. */
    method Add(s: Text)
      requires Valid()
      modifies buf, buf.data
      ensures Valid() && Pending() == AddAll(old(Pending()), buf.data.Length, s) && Excess() == old(Excess())
    {
      hide AddByte;
      assert s[..0] == [];
      for i := 0 to |s|
        invariant Valid() && Pending() == AddAll(old(Pending()), buf.data.Length, s[..i]) && Excess() == old(Excess())
      {
        assert s[..i + 1][..i] == s[..i];
        AddOne(s[i]);
      }
      assert s[..|s|] == s;
    }

    method AddOne(b: byte)
      requires Valid()
      modifies buf, buf.data
      ensures Valid() && Pending() == AddByte(old(Pending()), buf.data.Length, b) && Excess() == old(Excess())
    {
      if b != 0 && Kept(b) {
        var ok := buf.Write([b]);
        if !ok {
          buf.Clear();
        }
      }
    }

    /** buf_substring_len on the pending text. */
    method SubstringLen() returns (n: int)
      requires Valid()
      ensures n == LineLength(Pending())
    {
      var i := 0;
      while i < buf.len
        invariant 0 <= i <= buf.len
        invariant LineLength(Pending()) == if LineLength(Pending()[i..]) == -1 then -1 else i + LineLength(Pending()[i..])
      {
        assert Pending()[i..][0] == buf.data[buf.offset + i] && Pending()[i..][1..] == Pending()[i + 1..];
        if buf.data[buf.offset + i] == NL {
          return i + 1;
        }
        i := i + 1;
      }
      assert Pending()[i..] == [];
      n := -1;
    }

    /** buf_copy_excess: truncate the pending text to n and keep what was behind it. */
    method CopyExcess(n: nat)
      requires Valid() && n <= buf.len && Excess() == []
      modifies buf, residual, residual.data
      ensures Valid() && Pending() == old(Pending())[..n] && Excess() == old(Pending())[n..]
    {
      ghost var all := Pending();
      if buf.len > n {
        var excess := buf.data[buf.offset + n..buf.offset + buf.len];
        assert excess == all[n..];
        buf.len := n;
        var ok := residual.Write(excess);
        assert ok;
      } else {
        assert all[n..] == [] && all[..n] == all;
      }
    }

    /** buf_chomp, without the terminator. */
    method ChompPending()
      requires Valid()
      modifies buf`len
      ensures Valid() && Pending() == Chomp(old(Pending())) && Excess() == old(Excess())
    {
      while buf.len > 0 && (buf.data[buf.len - 1] == NL || buf.data[buf.len - 1] == CR || buf.data[buf.len - 1] == 0)
        invariant Valid() && Chomp(Pending()) == Chomp(old(Pending())) && Excess() == old(Excess())
        decreases buf.len
      {
        assert Pending()[|Pending()| - 1] == buf.data[buf.len - 1];
        var ok := buf.IncLen(-1);
        assert ok;
      }
    }

    /** buf_null_terminate: the line has lost its newline, so there is room. */
    method NullTerminate()
      requires Valid() && buf.len < buf.data.Length && (Pending() != [] ==> Pending()[|Pending()| - 1] != 0)
      modifies buf, buf.data
      ensures Valid() && Pending() == old(Pending()) + [0] && Excess() == old(Excess())
    {
      var ok := buf.Write([0]);
      assert ok;
    }

    /** command_line_get: the first complete line, if there is one; the rest is set aside. */
    method Get() returns (line: Option<Text>)
      requires Valid() && Excess() == []
      modifies buf, buf.data, residual, residual.data
      ensures Valid()
      ensures var n := LineLength(old(Pending()));
              if n == -1 then line == None && Pending() == old(Pending()) && Excess() == []
              else line == Some(Chomp(old(Pending())[..n])) && Excess() == old(Pending())[n..]
    {
      hide LineLength, Chomp, Valid;
      var i := SubstringLen();
      line := None;
      if i >= 0 {
        LengthFits(i);
        CopyExcess(i);
        var text := TakeLine();
        line := Some(text);
      }
    }

    lemma LengthFits(n: int)
      requires Valid() && n == LineLength(Pending()) && n >= 0
      ensures 0 < n <= buf.len && Pending()[..n][n - 1] == NL
    {
    }

    /** The truncated buffer as a string. */
    method TakeLine() returns (line: Text)
      requires Valid() && Pending() != [] && Pending()[|Pending()| - 1] == NL
      modifies buf, buf.data
      ensures Valid() && line == Chomp(old(Pending())) && Excess() == old(Excess())
    {
      hide Chomp;
      ChompEnds(Pending());
      ChompPending();
      ghost var text := Pending();
      NullTerminate();
      line := buf.data[..buf.len - 1];
      assert line == text;
    }

    lemma ChompEnds(s: Text)
      ensures Chomp(s) != [] ==> Chomp(s)[|Chomp(s)| - 1] != 0
      ensures s != [] && s[|s| - 1] == NL ==> |Chomp(s)| < |s|
    {
    }

    /** command_line_next: the text set aside becomes the pending text. */
    method NextLine()
      requires Valid()
      modifies buf, buf.data, residual, residual.data
      ensures Valid() && Pending() == old(Excess()) && Excess() == []
    {
      buf.Clear();
      var ok := buf.Write(residual.data[residual.offset..residual.offset + residual.len]);
      assert ok;
      residual.Clear();
    }

    /** What man_read does with the bytes of one read, as long as no command closes the connection. */
    method Process(s: Text) returns (lines: seq<Text>)
      requires Valid() && Excess() == []
      modifies buf, buf.data, residual, residual.data
      ensures Valid() && Excess() == []
      ensures Lines(lines, Pending()) == Drain(AddAll(old(Pending()), buf.data.Length, s))
    {
      hide LineLength, Chomp, AddAll, Drain, Valid, Prepended;
      Add(s);
      ghost var all := Drain(Pending());
      lines := [];
      NoneYet(all);
      while true
        invariant Valid() && Excess() == []
        invariant Prepended(lines, Drain(Pending())) == all
        decreases |Pending()|
      {
        ghost var text := Pending();
        DrainTurn(text);
        var line := Get();
        if line.None? {
          Regroup(lines, [], []);
          break;
        }
        Regroup(lines, line.value, Drain(Excess()).done);
        lines := lines + [line.value];
        NextLine();
      }
    }

    ghost function Prepended(lines: seq<Text>, d: Lines): Lines {
      Lines(lines + d.done, d.rest)
    }

    lemma NoneYet(d: Lines)
      ensures Prepended([], d) == d
    {
    }

    lemma Regroup(lines: seq<Text>, line: Text, more: seq<Text>)
      ensures forall rest: Text :: Prepended(lines, Lines([line] + more, rest)) == Prepended(lines + [line], Lines(more, rest))
      ensures forall rest: Text :: Prepended(lines, Lines([], rest)) == Lines(lines, rest)
    {
      assert lines + ([line] + more) == lines + [line] + more;
      assert lines + [] == lines;
    }
  }

  /** Every read of a connection in turn. */
  method Serve(cl: CommandLine, pieces: seq<Text>) returns (lines: seq<Text>)
    requires cl.Valid() && cl.Pending() == [] && cl.Excess() == []
    modifies cl.Repr()
    ensures cl.Valid() && Lines(lines, cl.Pending()) == Session([], cl.buf.data.Length, pieces)
    ensures NeverOverflows([], cl.buf.data.Length, pieces) ==> Lines(lines, cl.Pending()) == Drain(Filter(Joined(pieces)))
  {
    hide Drain, AddAll;
    lines := [];
    for i := 0 to |pieces|
      invariant cl.Valid() && cl.Excess() == [] && Lines(lines, cl.Pending()) == Session([], cl.buf.data.Length, pieces[..i])
    {
      assert pieces[..i + 1][..i] == pieces[..i];
      var more := cl.Process(pieces[i]);
      lines := lines + more;
    }
    assert pieces[..|pieces|] == pieces;
    if NeverOverflows([], cl.buf.data.Length, pieces) {
      SessionIsSplit(cl.buf.data.Length, pieces);
    }
  }
}
