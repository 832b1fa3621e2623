/**
  The management line assembler (manage.c:935-997, 1839-1905) on byte sequences: what lines come
  out of a stream of bytes, and that the way it is cut into reads does not matter.
*/
module CommandLineModel {
  import opened Buffers
  import opened IntegerOps
  import opened Sequences

  const NL: byte := 10
  const CR: byte := 13

  type Text = seq<byte>

  /** command_line_add keeps printable characters and newlines. */
  predicate Kept(b: byte) {
    32 <= b <= 126 || b == NL
  }

  function Filter(s: Text): (r: Text)
    ensures AllKept(r) && |r| <= |s|
  {
    if s == [] then [] else Filter(s[..|s| - 1]) + (if Kept(s[|s| - 1]) then [s[|s| - 1]] else [])
  }

  /** One byte of command_line_add; a byte that does not fit clears the buffer and is lost with it. */
  function AddByte(buf: Text, capacity: nat, b: byte): Text {
    if !Kept(b) then buf else if |buf| < capacity then buf + [b] else []
  }

  function AddAll(buf: Text, capacity: nat, s: Text): Text {
    if s == [] then buf else AddByte(AddAll(buf, capacity, s[..|s| - 1]), capacity, s[|s| - 1])
  }

  /** buf_substring_len for a newline: the length of the first line with its newline, or -1. */
  function LineLength(s: Text): (n: int)
    ensures n == -1 <==> NL !in s
    ensures n != -1 ==> 0 < n <= |s| && s[n - 1] == NL && NL !in s[..n - 1]
  {
    if s == [] then -1
    else if s[0] == NL then 1
    else
      var n := LineLength(s[1..]);
      assert n != -1 ==> s[..n] == [s[0]] + s[1..][..n - 1];
      if n == -1 then -1 else n + 1
  }

  /** buf_chomp without the terminator: no carriage returns, newlines or nulls at the end. */
  function Chomp(s: Text): (r: Text)
    ensures r <= s
  {
    if s != [] && (s[|s| - 1] == NL || s[|s| - 1] == CR || s[|s| - 1] == 0) then Chomp(s[..|s| - 1]) else s
  }

  /** Exactly the line-end and null bytes at the end go. */
  lemma {:induction false} ChompTrims(s: Text)
    ensures var r := Chomp(s);
            && (forall i | |r| <= i < |s| :: s[i] as int in {0, 10, 13})
            && (r != [] ==> r[|r| - 1] as int !in {0, 10, 13})
  {
    if s != [] {
      ChompTrims(s[..|s| - 1]);
    }
  }

  datatype Lines = Lines(done: seq<Text>, rest: Text)

  /** The get/process/next loop of man_read: the complete lines, and what stays buffered. */
  function Drain(s: Text): Lines {
    var n := LineLength(s);
    if n == -1 then Lines([], s)
    else var more := Drain(s[n..]); Lines([Chomp(s[..n])] + more.done, more.rest)
  }

  /** A whole session: each read is added, then the complete lines are taken. */
  function Session(buf: Text, capacity: nat, pieces: seq<Text>): Lines {
    if pieces == [] then Lines([], buf)
    else
      var before := Session(buf, capacity, pieces[..|pieces| - 1]);
      var now := Drain(AddAll(before.rest, capacity, pieces[|pieces| - 1]));
      Lines(before.done + now.done, now.rest)
  }

  /** The buffered text never overflows. */
  predicate NeverOverflows(buf: Text, capacity: nat, pieces: seq<Text>) {
    pieces == []
    || (var init := pieces[..|pieces| - 1];
        NeverOverflows(buf, capacity, init)
        && |Session(buf, capacity, init).rest| + |Filter(pieces[|pieces| - 1])| <= capacity)
  }

  // ------------------------------------------------------------------ splitting

  lemma {:induction false} FilterConcat(a: Text, b: Text)
    ensures Filter(a + b) == Filter(a) + Filter(b)
  {
    if b == [] {
      assert a + b == a;
    } else {
      assert (a + b)[..|a + b| - 1] == a + b[..|b| - 1];
      FilterConcat(a, b[..|b| - 1]);
    }
  }

  /** Without overflow, adding appends the filtered bytes. */
  lemma {:induction false} AddAppends(buf: Text, capacity: nat, s: Text)
    requires |buf| + |Filter(s)| <= capacity
    ensures AddAll(buf, capacity, s) == buf + Filter(s)
  {
    if s != [] {
      AddAppends(buf, capacity, s[..|s| - 1]);
    }
  }

  /** A newline, or one of the 95 characters from space to tilde. */
  lemma KeptBytes(b: byte)
    ensures Kept(b) <==> b as int == 0x0a || (b as int / 32 in {1, 2, 3} && b as int != 0x7f)
  {
  }

  /** Filtering keeps every kept byte, in order, and no other. */
  lemma {:induction false} FilterIs(s: Text, b: byte)
    ensures Filter(s + [b]) == Filter(s) + if Kept(b) then [b] else []
    ensures Filter([]) == []
  {
    assert (s + [b])[..|s|] == s;
  }

  /** An end of all, as long as all counted around a circle of one more than the capacity. */
  predicate EndOf(all: Text, capacity: nat, now: Text) {
    |now| == |all| % (capacity + 1) && |now| <= |all| && now == all[|all| - |now|..]
  }

  /**
    Overflow or not, the buffer holds an end of what was added to it, as long as the kept bytes
    counted around a circle of one more than the capacity: the byte too many empties it and is lost.
  */
  lemma {:induction false} AddKeepsEnd(buf: Text, capacity: nat, s: Text)
    requires |buf| <= capacity
    ensures EndOf(buf + Filter(s), capacity, AddAll(buf, capacity, s))
  {
    hide Filter, Kept, EndOf;
    if s == [] {
      FilterIs([], 0);
      assert buf + [] == buf;
      WholeIsEnd(buf, capacity);
    } else {
      var init, b := s[..|s| - 1], s[|s| - 1];
      AddKeepsEnd(buf, capacity, init);
      assert s == init + [b];
      FilterIs(init, b);
      var f := Filter(init);
      if Kept(b) {
        assert buf + (f + [b]) == buf + f + [b];
        EndStep(buf + f, AddAll(buf, capacity, init), b, capacity);
      } else {
        assert f + [] == f;
      }
    }
  }

  lemma WholeIsEnd(buf: Text, capacity: nat)
    requires |buf| <= capacity
    ensures EndOf(buf, capacity, buf)
  {
    Below(0, |buf|, capacity + 1);
  }

  lemma EndStep(all: Text, now: Text, b: byte, capacity: nat)
    requires EndOf(all, capacity, now)
    ensures EndOf(all + [b], capacity, if |now| < capacity then now + [b] else [])
  {
    NextOnCircle(|all|, capacity + 1);
    assert (all + [b])[|all| - |now|..] == all[|all| - |now|..] + [b];
  }

  lemma NextOnCircle(n: nat, m: nat)
    requires 0 < m
    ensures (n + 1) % m == if n % m + 1 == m then 0 else n % m + 1
  {
    var q, r := n / m, n % m;
    DivMod(n, m);
    MulSplit(q, 1, m);
    if r + 1 == m {
      Below(q + 1, 0, m);
    } else {
      Below(q, r + 1, m);
    }
  }

  lemma {:induction false} LineLengthConcat(a: Text, b: Text)
    requires NL in a
    ensures LineLength(a + b) == LineLength(a)
  {
    if a[0] != NL {
      assert (a + b)[1..] == a[1..] + b;
      LineLengthConcat(a[1..], b);
    }
  }

  lemma DrainTurn(s: Text)
    ensures var n := LineLength(s);
            Drain(s) == if n == -1 then Lines([], s)
                        else Lines([Chomp(s[..n])] + Drain(s[n..]).done, Drain(s[n..]).rest)
    ensures LineLength(s) == -1 || 0 < LineLength(s) <= |s|
  {
  }

  /** Taking lines as they complete takes the same lines as taking them all at the end. */
  lemma {:induction false} DrainConcat(a: Text, b: Text)
    ensures var d := Drain(a);
            Drain(a + b) == Lines(d.done + Drain(d.rest + b).done, Drain(d.rest + b).rest)
    decreases |a|
  {
    hide LineLength, Chomp, Drain;
    DrainTurn(a);
    DrainTurn(a + b);
    var n := LineLength(a);
    if n != -1 {
      LineLengthConcat(a, b);
      assert (a + b)[..n] == a[..n] && (a + b)[n..] == a[n..] + b;
      DrainConcat(a[n..], b);
      var d, e := Drain(a[n..]), Drain(Drain(a[n..]).rest + b);
      assert [Chomp(a[..n])] + (d.done + e.done) == [Chomp(a[..n])] + d.done + e.done;
    } else {
      assert [] + Drain(a + b).done == Drain(a + b).done;
    }
  }

  /**
    While the buffer never overflows, the lines a session produces are those of the filtered bytes
    as a whole, however they were cut into reads.
  */
  lemma {:induction false} SessionIsSplit(capacity: nat, pieces: seq<Text>)
    requires NeverOverflows([], capacity, pieces)
    ensures Session([], capacity, pieces) == Drain(Filter(Joined(pieces)))
  {
    if pieces != [] {
      var init, last := pieces[..|pieces| - 1], pieces[|pieces| - 1];
      JoinedLast(pieces);
      SessionIsSplit(capacity, init);
      AddAppends(Session([], capacity, init).rest, capacity, last);
      FilterConcat(Joined(init), last);
      DrainConcat(Filter(Joined(init)), Filter(last));
    }
  }

  /** Two ways of cutting the same bytes give the same lines. */
  lemma CuttingIsInvisible(capacity: nat, pieces: seq<Text>, pieces': seq<Text>)
    requires NeverOverflows([], capacity, pieces) && NeverOverflows([], capacity, pieces') && Joined(pieces) == Joined(pieces')
    ensures Session([], capacity, pieces) == Session([], capacity, pieces')
  {
    SessionIsSplit(capacity, pieces);
    SessionIsSplit(capacity, pieces');
  }

  function Unlines(lines: seq<Text>): Text {
    if lines == [] then [] else lines[0] + [NL] + Unlines(lines[1..])
  }

  predicate NoBreaks(s: Text) {
    NL !in s
  }

  predicate AllKept(s: Text) {
    forall i | 0 <= i < |s| :: Kept(s[i])
  }

  /** The first line with its newline, and that the rest is kept text too. */
  lemma FirstLine(s: Text)
    requires AllKept(s) && LineLength(s) != -1
    ensures var n := LineLength(s);
            Chomp(s[..n]) + [NL] + s[n..] == s && NoBreaks(Chomp(s[..n])) && AllKept(s[n..])
  {
    hide LineLength, Chomp;
    var n := LineLength(s);
    assert s[..n][..n - 1] == s[..n - 1];
    ChompLine(s[..n]);
    assert s[..n - 1] + [NL] == s[..n];
    assert s[..n] + s[n..] == s;
  }

  predicate AllUnbroken(lines: seq<Text>) {
    forall i | 0 <= i < |lines| :: NoBreaks(lines[i])
  }

  /** What is a line: putting the newlines back gives the filtered bytes, and no line holds one. */
  lemma {:induction false} DrainRejoins(s: Text)
    requires AllKept(s)
    ensures var d := Drain(s); Unlines(d.done) + d.rest == s && AllUnbroken(d.done) && NoBreaks(d.rest)
    decreases |s|
  {
    hide LineLength, Chomp, AllKept, NoBreaks, Unlines, AllUnbroken;
    var n := LineLength(s);
    if n == -1 {
      NoLine(s);
    } else {
      FirstLine(s);
      DrainRejoins(s[n..]);
      var line, more := Chomp(s[..n]), Drain(s[n..]);
      UnlinesCons(line, more.done, more.rest);
      UnbrokenCons(line, more.done);
    }
  }

  lemma UnlinesCons(line: Text, lines: seq<Text>, rest: Text)
    ensures Unlines([line] + lines) + rest == line + [NL] + (Unlines(lines) + rest)
  {
    assert ([line] + lines)[1..] == lines;
  }

  lemma UnbrokenCons(line: Text, lines: seq<Text>)
    requires NoBreaks(line) && AllUnbroken(lines)
    ensures AllUnbroken([line] + lines)
  {
  }

  lemma NoLine(s: Text)
    requires LineLength(s) == -1
    ensures NoBreaks(s) && Unlines([]) + s == s && AllUnbroken([])
  {
  }

  /** Of a kept line only the newline is trimmed. */
  lemma ChompLine(s: Text)
    requires s != [] && s[|s| - 1] == NL && NL !in s[..|s| - 1] && AllKept(s)
    ensures Chomp(s) == s[..|s| - 1]
  {
    var t := s[..|s| - 1];
    if t != [] {
      assert t[|t| - 1] in t && t[|t| - 1] == s[|t| - 1];
    }
  }
}
