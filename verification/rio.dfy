/** The robust I/O package of csapp.c.  What read(2) and write(2) do at each call is an
    arbitrary schedule: interrupted, failed, or a transfer of some of the bytes asked for. */
module Rio {
  import opened Arithmetic
  import opened MemLib

  const RIO_BUFSIZE := 8192
  const NEWLINE: Byte := 10

  /** What one system call does: EINTR, another error, or at most atMost bytes (and at least one,
      unless there are none). */
  datatype Outcome = Interrupted | Fails | Moves(atMost: nat)

  /** The number of bytes that a call moves when asked for n of those available. */
  function Moved(n: int, available: int, atMost: nat): int {
    Min(Min(n, available), if atMost == 0 then 1 else atMost)
  }

  /** s with d written over it from position off. */
  ghost function Spliced(s: seq<Byte>, off: nat, d: seq<Byte>): seq<Byte>
    requires off + |d| <= |s|
  {
    s[..off] + d + s[off + |d|..]
  }

  /** Two adjacent pieces of one sequence, written one after the other. */
  lemma SplicedTwice(s: seq<Byte>, R: seq<Byte>, g: nat, r: nat)
    requires g + r <= |R| && g + r <= |s|
    ensures Spliced(Spliced(s, 0, R[..g]), g, R[g..][..r]) == Spliced(s, 0, R[..g + r])
    ensures R[g..][r..] == R[g + r..]
  {
  }

  lemma SplicedNone(s: seq<Byte>, off: nat)
    requires off <= |s|
    ensures Spliced(s, off, []) == s
  {
  }

  /** How many bytes of R make a line: up to the first newline and with it, but no more than limit. */
  function LineLength(R: seq<Byte>, limit: nat): (n: nat)
    ensures n <= limit && n <= |R|
  {
    if R == [] || limit == 0 then 0 else if R[0] == NEWLINE then 1 else 1 + LineLength(R[1..], limit - 1)
  }

  /** A line has no newline but for its last byte, and ends there, at the limit, or with R. */
  lemma {:induction false} LineMeans(R: seq<Byte>, limit: nat)
    ensures var n := LineLength(R, limit);
            && (forall k :: 0 <= k < n - 1 ==> R[k] != NEWLINE)
            && (n == limit || n == |R| || (n > 0 && R[n - 1] == NEWLINE))
  {
    if R != [] && limit > 0 && R[0] != NEWLINE {
      LineMeans(R[1..], limit - 1);
      assert forall k :: 0 < k < |R| ==> R[k] == R[1..][k - 1];
    }
  }

  lemma {:induction false} LineSoFar(R: seq<Byte>, limit: nat, k: nat)
    requires k <= |R| && k <= limit && forall i :: 0 <= i < k ==> R[i] != NEWLINE
    ensures LineLength(R, limit) == k + LineLength(R[k..], limit - k)
  {
    if k > 0 {
      LineSoFar(R[1..], limit - 1, k - 1);
      assert R[1..][k - 1..] == R[k..];
    }
  }

  lemma OneByte(c0: seq<Byte>, R: seq<Byte>, k: nat, limit: nat, c: seq<Byte>)
    requires |c0| == 1 && k < |R| && k < limit && c == Spliced(c0, 0, R[k..][..1])
    ensures |c| == 1 && c[0] == R[k] && R[k..][1..] == R[k + 1..]
    ensures R[k] == NEWLINE ==> LineLength(R[k..], limit - k) == 1
  {
  }

  lemma TakeAndDrop(D: seq<Byte>, S: seq<Byte>, c: nat)
    requires c <= |D|
    ensures (D + S)[..c] == D[..c] && (D + S)[c..] == D[c..] + S
  {
  }

  lemma SplicedAt(s: seq<Byte>, off: nat, d: seq<Byte>, t: seq<Byte>)
    requires off + |d| <= |s| == |t|
    requires forall k :: off <= k < off + |d| ==> t[k] == d[k - off]
    requires forall k :: 0 <= k < |s| && !(off <= k < off + |d|) ==> t[k] == s[k]
    ensures t == Spliced(s, off, d)
  {
  }

  /** An open file: a stream of bytes, and the outcomes of the calls to come; when they are used
      up, every call moves all it can. */
  class File {
    const stream: seq<Byte>
    var pos: nat
    var schedule: seq<Outcome>

    constructor (stream: seq<Byte>, schedule: seq<Outcome>)
      ensures Valid() && this.stream == stream && pos == 0 && this.schedule == schedule
    {
      this.stream, pos, this.schedule := stream, 0, schedule;
    }

    ghost predicate Valid()
      reads this
    {
      pos <= |stream|
    }

    /** read(2): r is -1 on an error, which is EINTR or not. */
    method Read(buf: array<Byte>, n: nat) returns (r: int, eintr: bool)
      requires Valid() && n <= buf.Length
      modifies this, buf
      ensures Valid() && |schedule| <= |old(schedule)|
      ensures r == -1 ==> |schedule| < |old(schedule)| && pos == old(pos) && buf[..] == old(buf[..])
      ensures r == -1 && !eintr ==> Fails in old(schedule)
      ensures r != -1 ==> 0 <= r <= n && pos == old(pos) + r && buf[..r] == stream[old(pos)..pos]
      ensures r != -1 ==> (r == 0 <==> n == 0 || old(pos) == |stream|)
      ensures forall o :: o in schedule ==> o in old(schedule)
    {
      var outcome := Moves(n);
      if schedule != [] {
        outcome, schedule := schedule[0], schedule[1..];
      }
      match outcome
      case Interrupted => return -1, true;
      case Fails => return -1, false;
      case Moves(atMost) =>
        r := Moved(n, |stream| - pos, atMost);
        forall k | 0 <= k < r {
          buf[k] := stream[pos + k];
        }
        pos := pos + r;
        return r, false;
    }
  }

  /** rio_t. */
  class Reader {
    const file: File
    const buf: array<Byte>
    var cnt: int
    var bufptr: nat

    /** rio_readinitb. */
    constructor (file: File)
      requires file.Valid()
      ensures Valid() && this.file == file && Remaining() == file.stream[file.pos..] && fresh(buf)
    {
      this.file := file;
      buf := new Byte[RIO_BUFSIZE];
      cnt := 0;
      bufptr := 0;
    }

    ghost predicate Valid()
      reads this, file, buf
    {
      && file.Valid() && buf.Length == RIO_BUFSIZE
      && (cnt > 0 ==> bufptr + cnt <= RIO_BUFSIZE)
    }

    /** What has been read from the file but not yet delivered. */
    ghost function Buffered(): seq<Byte>
      requires Valid()
      reads this, file, buf
    {
      if cnt > 0 then buf[bufptr..bufptr + cnt] else []
    }

    /** Every byte of the stream that has not been delivered. */
    ghost function Remaining(): seq<Byte>
      requires Valid()
      reads this, file, buf
    {
      Buffered() + file.stream[file.pos..]
    }

    /** The first half of rio_read: refill the buffer if it is empty.  1 means that there are
        bytes in it, 0 the end of the stream, -1 an error other than EINTR. */
    method Refill() returns (status: int)
      requires Valid()
      modifies this, file, buf
      ensures Valid() && Remaining() == old(Remaining())
      ensures status in {-1, 0, 1}
      ensures status == 1 ==> cnt > 0
      ensures status == 0 ==> Remaining() == []
      ensures status == -1 ==> Fails in old(file.schedule)
      ensures forall o :: o in file.schedule ==> o in old(file.schedule)
    {
      while cnt <= 0
        invariant Valid() && Remaining() == old(Remaining())
        invariant forall o :: o in file.schedule ==> o in old(file.schedule)
        decreases |file.schedule|, if cnt <= 0 then 1 else 0
      {
        ghost var pos := file.pos;
        var eintr;
        cnt, eintr := file.Read(buf, RIO_BUFSIZE);
        if cnt < 0 {
          if !eintr {
            return -1;
          }
        } else if cnt == 0 {
          return 0;
        } else {
          bufptr := 0;
          assert buf[0..cnt] == file.stream[pos..file.pos];
          assert file.stream[pos..] == file.stream[pos..file.pos] + file.stream[file.pos..];
        }
      }
      return 1;
    }

    /** rio_read: deliver up to n bytes at offset off of the user's buffer. */
    method Read(usrbuf: array<Byte>, off: nat, n: nat) returns (r: int)
      requires Valid() && off + n <= usrbuf.Length && usrbuf != buf
      modifies this, file, buf, usrbuf
      ensures Valid()
      ensures -1 <= r <= n
      ensures r <= 0 ==> Remaining() == old(Remaining()) && usrbuf[..] == old(usrbuf[..])
      ensures r == 0 ==> n == 0 || Remaining() == []
      ensures r > 0 ==> r <= |old(Remaining())| && Remaining() == old(Remaining())[r..]
      ensures r > 0 ==> r == n || cnt == 0
      ensures r > 0 ==> usrbuf[..] == Spliced(old(usrbuf[..]), off, old(Remaining())[..r])
      ensures r == -1 ==> Fails in old(file.schedule)
      ensures forall o :: o in file.schedule ==> o in old(file.schedule)
    {
      hide Spliced, Buffered;
      var status := Refill();
      if status != 1 {
        return status;
      }
      ghost var R, u := Remaining(), usrbuf[..];
      r := Deliver(usrbuf, off, n);
      if r == 0 {
        assert R[..0] == [] && R[0..] == R;
        SplicedNone(u, off);
      }
    }

    /** The second half of rio_read: copy min(n, cnt) bytes out of the buffer. */
    method Deliver(usrbuf: array<Byte>, off: nat, n: nat) returns (count: int)
      requires Valid() && cnt > 0 && off + n <= usrbuf.Length && usrbuf != buf
      modifies this, usrbuf
      ensures Valid()
      ensures count == Min(n, old(cnt)) && count <= |old(Remaining())| && cnt == old(cnt) - count
      ensures Remaining() == old(Remaining())[count..]
      ensures usrbuf[..] == Spliced(old(usrbuf[..]), off, old(Remaining())[..count])
    {
      hide Spliced;
      ghost var D, S, u, b := Buffered(), file.stream[file.pos..], usrbuf[..], buf[..];
      count := n;
      if cnt < n {
        count := cnt;
      }
      TakeAndDrop(D, S, count);
      forall k | 0 <= k < count {
        usrbuf[off + k] := buf[bufptr + k];
      }
      SplicedAt(u, off, D[..count], usrbuf[..]);
      bufptr := bufptr + count;
      cnt := cnt - count;
      assert buf[..] == b;
      assert Buffered() == D[count..];
    }

    /** rio_readnb: read n bytes, or up to the end of the stream.  Also after an error, got bytes
        have been delivered. */
    method ReadNb(usrbuf: array<Byte>, n: nat) returns (r: int, ghost got: nat)
      requires Valid() && n <= usrbuf.Length && usrbuf != buf
      modifies this, file, buf, usrbuf
      ensures Valid() && got <= n && got <= |old(Remaining())|
      ensures Remaining() == old(Remaining())[got..]
      ensures usrbuf[..] == Spliced(old(usrbuf[..]), 0, old(Remaining())[..got])
      ensures r != -1 ==> r == got == Min(n, |old(Remaining())|)
      ensures r == -1 ==> Fails in old(file.schedule)
      ensures forall o :: o in file.schedule ==> o in old(file.schedule)
    {
      hide Spliced, Buffered;
      ghost var R, u := Remaining(), usrbuf[..];
      var nleft := n;
      got := 0;
      SplicedNone(u, 0);
      while nleft > 0
        invariant 0 <= nleft <= n && got == n - nleft
        invariant Valid() && got <= |R| && Remaining() == R[got..]
        invariant usrbuf[..] == Spliced(u, 0, R[..got])
        invariant forall o :: o in file.schedule ==> o in old(file.schedule)
      {
        var nread := Read(usrbuf, n - nleft, nleft);
        if nread < 0 {
          return -1, got;
        } else if nread == 0 {
          break;
        }
        SplicedTwice(u, R, got, nread);
        nleft := nleft - nread;
        got := got + nread;
      }
      return n - nleft, got;
    }

    /** rio_readlineb: read a line of at most maxlen - 1 bytes and terminate it with a zero byte, which
        only the end of the stream before any byte leaves out. */
    method ReadLineB(usrbuf: array<Byte>, maxlen: nat) returns (r: int, ghost got: nat)
      requires Valid() && maxlen <= usrbuf.Length && 1 <= usrbuf.Length && usrbuf != buf
      modifies this, file, buf, usrbuf
      ensures Valid() && got < usrbuf.Length && got <= |old(Remaining())|
      ensures Remaining() == old(Remaining())[got..]
      ensures usrbuf[..got] == old(Remaining())[..got]
      ensures r != -1 ==> r == got == LineLength(old(Remaining()), if maxlen == 0 then 0 else maxlen - 1)
      ensures r == -1 ==> got <= LineLength(old(Remaining()), if maxlen == 0 then 0 else maxlen - 1)
      ensures r > 0 || (r == 0 && maxlen <= 1) ==> usrbuf[r] == 0
      ensures r == 0 && maxlen > 1 ==> usrbuf[..] == old(usrbuf[..]) && old(Remaining()) == []
      ensures r == -1 ==> Fails in old(file.schedule)
      ensures forall o :: o in file.schedule ==> o in old(file.schedule)
    {
      hide Spliced, Buffered, Remaining, LineLength, Reader.Valid;
      ghost var R := Remaining();
      ghost var limit := if maxlen == 0 then 0 else maxlen - 1;
      ghost var ended := false;
      var c := new Byte[1];
      var n := 1;
      while n < maxlen
        invariant 1 <= n && n - 1 <= limit && n - 1 <= |R| && n - 1 < usrbuf.Length
        invariant Valid() && Remaining() == R[n - 1..]
        invariant usrbuf[..n - 1] == R[..n - 1]
        invariant forall i :: 0 <= i < n - 1 ==> R[i] != NEWLINE
        invariant !ended
        invariant n == 1 ==> usrbuf[..] == old(usrbuf[..])
        invariant forall o :: o in file.schedule ==> o in old(file.schedule)
      {
        LineSoFar(R, limit, n - 1);
        ghost var c0 := c[..];
        var rc := Read(c, 0, 1);
        if rc == 1 {
          OneByte(c0, R, n - 1, limit, c[..]);
          usrbuf[n - 1] := c[0];
          assert usrbuf[..n] == R[..n];
          if c[0] == NEWLINE {
            n := n + 1;
            ended := true;
            break;
          }
        } else if rc == 0 {
          if n == 1 {
            return 0, 0;
          }
          ended := true;
          break;
        } else {
          return -1, n - 1;
        }
        n := n + 1;
      }
      if !ended {
        LineSoFar(R, limit, n - 1);
      }
      usrbuf[n - 1] := 0;
      return n - 1, n - 1;
    }

    /** Any mix of line and block reads on one buffer, also after a failed one.  The pieces that the
        calls take from the stream, one after the other, and what remains make up the stream.  A call
        that succeeds delivers its piece, and that is what the stream alone dictates, whatever the
        schedule of short reads and interruptions was; a call that fails has taken a first part of it. */
    method Session(calls: seq<Call>) returns (replies: seq<Reply>, ghost pieces: seq<seq<Byte>>)
      requires Valid()
      modifies this, file, buf
      ensures Valid() && |replies| == |pieces| == |calls|
      ensures Flat(pieces) + Remaining() == old(Remaining())
      ensures forall k :: 0 <= k < |calls| ==> Answered(old(Remaining()), calls, pieces, replies, k)
      ensures Failed !in replies ==> pieces == Answers(old(Remaining()), calls)
      ensures Failed in replies ==> Fails in old(file.schedule)
    {
      hide Remaining, Buffered, Spliced, Flat, Answers, Answered;
      ghost var R0 := Remaining();
      replies, pieces := [], [];
      NoAnswers(R0, calls);
      var k := 0;
      while k < |calls|
        invariant 0 <= k <= |calls| && Valid() && |replies| == |pieces| == k
        invariant Flat(pieces) + Remaining() == R0
        invariant forall j :: 0 <= j < k ==> Answered(R0, calls, pieces, replies, j)
        invariant Failed !in replies ==> pieces + Answers(Remaining(), calls[k..]) == Answers(R0, calls)
        invariant Failed in replies ==> Fails in old(file.schedule)
        invariant forall o :: o in file.schedule ==> o in old(file.schedule)
      {
        ghost var R := Remaining();
        var reply;
        ghost var got;
        reply, got := One(calls[k]);
        FlatThen(pieces, R[..got], R, got, R0);
        StillAnswered(R0, calls, pieces, replies, R, got, reply);
        NextAnswer(R, calls[k..], pieces);
        assert calls[k..][1..] == calls[k + 1..];
        replies, pieces := replies + [reply], pieces + [R[..got]];
        k := k + 1;
      }
      NoAnswers(Remaining(), calls[k..]);
    }

    /** One call, into a buffer of its own. */
    method One(call: Call) returns (reply: Reply, ghost got: nat)
      requires Valid()
      modifies this, file, buf
      ensures Valid() && got <= |old(Remaining())| && Remaining() == old(Remaining())[got..]
      ensures Fitting(old(Remaining()), call, reply, old(Remaining())[..got])
      ensures reply == Failed ==> Fails in old(file.schedule)
      ensures forall o :: o in file.schedule ==> o in old(file.schedule)
    {
      hide Remaining, Buffered, LineLength;
      var r;
      reply := Failed;
      match call {
        case Line(maxlen) =>
          var usrbuf := new Byte[maxlen + 1];
          r, got := ReadLineB(usrbuf, maxlen);
          if r != -1 {
            reply := Got(usrbuf[..r]);
          }
        case Bytes(n) =>
          var usrbuf := new Byte[n];
          r, got := ReadNb(usrbuf, n);
          if r != -1 {
            reply := Got(usrbuf[..r]);
          }
      }
    }
  }

  // ---------- Whole sessions ----------

  datatype Call = Line(maxlen: nat) | Bytes(n: nat)

  /** What a call delivers when R is all that remains of the stream. */
  ghost function Answer(R: seq<Byte>, call: Call): seq<Byte> {
    match call
    case Line(maxlen) => R[..LineLength(R, if maxlen == 0 then 0 else maxlen - 1)]
    case Bytes(n) => R[..Min(n, |R|)]
  }

  datatype Reply = Got(data: seq<Byte>) | Failed

  /** The reply to a call that takes a piece from R. */
  ghost predicate Fitting(R: seq<Byte>, call: Call, reply: Reply, piece: seq<Byte>) {
    match reply
    case Got(data) => data == piece == Answer(R, call)
    case Failed => piece <= Answer(R, call)
  }

  /** The k-th reply fits what the stream R0 holds behind the pieces before. */
  ghost predicate Answered(R0: seq<Byte>, calls: seq<Call>, pieces: seq<seq<Byte>>, replies: seq<Reply>, k: nat) {
    && k < |calls| && k < |pieces| && k < |replies|
    && Flat(pieces[..k]) <= R0
    && Fitting(R0[|Flat(pieces[..k])|..], calls[k], replies[k], pieces[k])
  }

  lemma StillAnswered(
      R0: seq<Byte>, calls: seq<Call>, pieces: seq<seq<Byte>>, replies: seq<Reply>,
      R: seq<Byte>, got: nat, reply: Reply)
    requires |pieces| == |replies| < |calls| && got <= |R| && Flat(pieces) + R == R0
    requires forall j :: 0 <= j < |pieces| ==> Answered(R0, calls, pieces, replies, j)
    requires Fitting(R, calls[|pieces|], reply, R[..got])
    ensures var pieces', replies' := pieces + [R[..got]], replies + [reply];
            forall j :: 0 <= j <= |pieces| ==> Answered(R0, calls, pieces', replies', j)
  {
    hide Fitting, Flat;
    var pieces', replies' := pieces + [R[..got]], replies + [reply];
    forall j | 0 <= j <= |pieces|
      ensures Answered(R0, calls, pieces', replies', j)
    {
      assert pieces'[..j] == pieces[..j];
      if j < |pieces| {
        assert Answered(R0, calls, pieces, replies, j);
      } else {
        assert pieces[..j] == pieces && R0[|Flat(pieces)|..] == R;
      }
    }
  }

  ghost function Answers(R: seq<Byte>, calls: seq<Call>): seq<seq<Byte>>
    decreases |calls|
  {
    if calls == [] then [] else
    var a := Answer(R, calls[0]);
    [a] + Answers(R[|a|..], calls[1..])
  }

  ghost function Flat(results: seq<seq<Byte>>): seq<Byte> {
    if results == [] then [] else Flat(results[..|results| - 1]) + results[|results| - 1]
  }

  lemma NoAnswers(R: seq<Byte>, calls: seq<Call>)
    ensures Flat([]) == [] && [] + Answers(R, calls) == Answers(R, calls[0..])
    ensures calls == [] ==> Answers(R, calls) == []
  {
    assert calls[0..] == calls;
  }

  lemma NextAnswer(R: seq<Byte>, calls: seq<Call>, results: seq<seq<Byte>>)
    requires calls != []
    ensures var a := Answer(R, calls[0]);
            results + [a] + Answers(R[|a|..], calls[1..]) == results + Answers(R, calls)
  {
  }

  lemma FlatThen(results: seq<seq<Byte>>, data: seq<Byte>, R: seq<Byte>, got: nat, R0: seq<Byte>)
    requires got <= |R| && Flat(results) + R == R0
    ensures Flat(results) + R[..got] + R[got..] == R0
    ensures data == R[..got] ==> Flat(results + [data]) + R[got..] == R0
  {
    assert R == R[..got] + R[got..];
    assert (results + [data])[..|results|] == results;
  }

  // ---------- rio_writen ----------

  /** An open file for writing: what it has received, and the outcomes of the calls to come. */
  class Sink {
    var written: seq<Byte>
    var schedule: seq<Outcome>

    /** write(2). */
    method Write(data: seq<Byte>) returns (r: int, eintr: bool)
      requires data != []
      modifies this
      ensures |schedule| <= |old(schedule)|
      ensures r <= 0 ==> |schedule| < |old(schedule)| && written == old(written)
      ensures r <= 0 && !eintr ==> Fails in old(schedule)
      ensures r > 0 ==> r <= |data| && written == old(written) + data[..r]
      ensures forall o :: o in schedule ==> o in old(schedule)
    {
      var outcome := Moves(|data|);
      if schedule != [] {
        outcome, schedule := schedule[0], schedule[1..];
      }
      match outcome
      case Interrupted => return -1, true;
      case Fails => return -1, false;
      case Moves(atMost) =>
        r := Moved(|data|, |data|, atMost);
        written := written + data[..r];
        return r, false;
    }

    /** rio_writen: all n bytes arrive, in order and once; after an error, some first ones have. */
    method WriteN(usrbuf: array<Byte>, n: nat) returns (r: int, ghost put: nat)
      requires n <= usrbuf.Length
      modifies this
      ensures put <= n && written == old(written) + usrbuf[..put]
      ensures r == n == put || (r == -1 && put < n && Fails in old(schedule))
    {
      var nleft := n;
      put := 0;
      while nleft > 0
        invariant 0 <= nleft <= n && put == n - nleft
        invariant written == old(written) + usrbuf[..put]
        invariant forall o :: o in schedule ==> o in old(schedule)
        decreases nleft, |schedule|
      {
        var nwritten, eintr := Write(usrbuf[n - nleft..n]);
        if nwritten <= 0 {
          if eintr {
            nwritten := 0;
          } else {
            return -1, put;
          }
        }
        assert usrbuf[put..n][..nwritten] == usrbuf[put..put + nwritten];
        assert usrbuf[..put] + usrbuf[put..put + nwritten] == usrbuf[..put + nwritten];
        nleft := nleft - nwritten;
        put := put + nwritten;
      }
      return n, put;
    }
  }
}
