/** The two loops that read a whole stream into a buffer that grows. */
module ReadLoop {
  import opened Text

  /** What the system does at one read: it fails, or it is willing to deliver up to so many
      bytes. */
  datatype Answer = Fails | Offers(most: nat)

  /** A stream: its contents, how much has been read, how often read(2) was called, and what
      the system answers at each call. */
  class Stream {
    const contents: seq<char>
    const answers: nat -> Answer
    var position: nat
    var calls: nat

    constructor (contents: seq<char>, answers: nat -> Answer)
      ensures this.contents == contents && this.answers == answers && position == 0 && calls == 0
    {
      this.contents, this.answers := contents, answers;
      position, calls := 0, 0;
    }

    /** No call so far has failed. */
    ghost predicate Healthy()
      reads this
    {
      && position <= |contents|
      && forall i :: 0 <= i < calls ==> answers(i) != Fails
    }

    /** read(2) into `buf[at..end]`. Before the end of the stream it delivers at least one
        byte, or fails. Asking for no bytes at all is not allowed: the answer would look like
        the end of the stream. */
    method Read(buf: array<char>, at: nat, end: nat) returns (n: int)
      requires Healthy() && at < end <= buf.Length
      modifies this`position, this`calls, buf
      ensures calls == old(calls) + 1
      ensures n < 0 <==> answers(old(calls)) == Fails
      ensures n < 0 ==> position == old(position)
      ensures n >= 0 ==> Healthy() && position == old(position) + n && n <= end - at
      ensures n == 0 <==> answers(old(calls)) != Fails && old(position) == |contents|
      ensures n >= 0 ==> buf[..at + n] == old(buf[..at]) + contents[old(position)..position]
      ensures forall i :: at + n <= i < buf.Length && n >= 0 ==> buf[i] == old(buf[i])
    {
      var answer := answers(calls);
      calls := calls + 1;
      if answer == Fails {
        return -1;
      }
      var left := |contents| - position;
      var offer := if answer.most == 0 then 1 else answer.most;
      n := if left < end - at then left else end - at;
      n := if offer < n then offer else n;
      var _ := Put(buf, at, contents[position..position + n]);
      position := position + n;
    }
  }

  datatype Result = Ok(data: seq<char>) | Declined

  /** A buffer of `size` cells that begins with the first `used` cells of `buf`. */
  method Grow(buf: array<char>, used: nat, size: nat) returns (bigger: array<char>)
    requires used <= buf.Length && used <= size
    ensures fresh(bigger) && bigger.Length == size && bigger[..used] == buf[..used]
  {
    bigger := new char[size](_ => '\0');
    forall i | 0 <= i < used {
      bigger[i] := buf[i];
    }
  }

  /** The loop of the fs module: whenever fewer than 2048 bytes are free the buffer is doubled.
      It returns the whole stream however the reads are cut up, and declines exactly when a
      read fails. */
  method ReadDescriptor(stream: Stream, hint: nat) returns (r: Result)
    requires stream.position == 0 && stream.calls == 0
    modifies stream`position, stream`calls
    ensures r == Ok(stream.contents) || r == Declined
    ensures r == Declined <==> exists i :: 0 <= i < stream.calls && stream.answers(i) == Fails
  {
    var size := if hint == 0 then 4096 else hint;
    var start := new char[size](_ => '\0');
    var p, end := 0, size;
    while true
      invariant fresh(start) && start.Length == size == end && p < end
      invariant stream.Healthy() && p == stream.position && start[..p] == stream.contents[..p]
      decreases |stream.contents| - stream.position
    {
      var n := stream.Read(start, p, end);
      if n < 0 {
        assert stream.answers(stream.calls - 1) == Fails;
        return Declined;
      }
      assert start[..p + n] == stream.contents[..p + n];
      p := p + n;
      if n == 0 {
        break;
      }
      if end - p < 2048 {
        size := size * 2;
        start := Grow(start, p, size);
        end := size;
      }
    }
    assert stream.contents[..p] == stream.contents;
    return Ok(start[..p]);
  }

  /** The loop of the shell: the buffer is doubled when a read fills it to the end. One more
      cell than that is kept for the closing NUL. */
  method ReadFile(stream: Stream, regularSize: nat) returns (r: Result)
    requires stream.position == 0 && stream.calls == 0
    modifies stream`position, stream`calls
    ensures r == Ok(stream.contents) || r == Declined
    ensures r == Declined <==> exists i :: 0 <= i < stream.calls && stream.answers(i) == Fails
  {
    var size := if regularSize != 0 then regularSize else 4096;
    var length := 0;
    var start := new char[size + 1](_ => '\0');
    var p, end := 0, size;
    while true
      invariant fresh(start) && start.Length == size + 1 && end == size && p == length < end
      invariant stream.Healthy() && p == stream.position && start[..p] == stream.contents[..p]
      decreases |stream.contents| - stream.position
    {
      var n := stream.Read(start, p, end);
      if n == 0 {
        break;
      }
      if n < 0 {
        assert stream.answers(stream.calls - 1) == Fails;
        return Declined;
      }
      assert start[..p + n] == stream.contents[..p + n];
      if p + n == end {
        size := size * 2;
        start := Grow(start, start.Length, size + 1) by { assert start.Length <= size + 1; }
        p := length;
        end := size;
      }
      p := p + n;
      length := length + n;
    }
    start[length] := '\0';
    assert stream.contents[..length] == stream.contents;
    return Ok(start[..length]);
  }
}
