/** The bookkeeping of `write`: the two `iovec`s that gather the response
    head (in the write buffer) and the mapped file, and how they are moved
    on after each `writev` that sent part of them. The head is `head` bytes
    long and the file `size` bytes; together they form the byte stream the
    client is to receive. */
module Scheduler {

  /** One `struct iovec`: an offset into its segment (the write buffer for
      the first, the mapped file for the second) and a length. */
  datatype Iovec = Iovec(base: int, len: int)

  /** `m_iv`, `m_iv_count`, `bytes_have_send` and `bytes_to_send`. */
  datatype Transfer = Transfer(iv0: Iovec, iv1: Iovec, count: nat, have: int, toSend: int)

  /** The bytes a `writev` over the first `count` vectors offers. */
  function Offered(t: Transfer): int {
    t.iv0.len + (if t.count == 2 then t.iv1.len else 0)
  }

  /** The vectors describe exactly the part of the stream not yet sent:
      while the head is unfinished, its rest and then the whole file; once
      it is done, an empty first vector and the rest of the file. A
      one-vector response has no file. */
  predicate Exact(t: Transfer, head: nat, size: nat) {
    && (t.count == 1 || t.count == 2)
    && (t.count == 1 ==> size == 0)
    && 0 <= t.have <= head + size
    && t.toSend == head + size - t.have
    && (t.have < head ==> t.iv0 == Iovec(t.have, head - t.have) && (t.count == 2 ==> t.iv1 == Iovec(0, size)))
    && (t.have >= head ==> t.iv0.len == 0 && (t.count == 2 ==> t.iv1 == Iovec(t.have - head, t.toSend)))
  }

  /** The transfer `process_write` sets up on a freshly initialised
      connection (`bytes_have_send` is 0); with one vector the second is
      left as it was. */
  function Start(head: nat, size: nat, count: nat, stale: Iovec): (t: Transfer)
    requires count == 1 || count == 2
    requires count == 1 ==> size == 0
    ensures Exact(t, head, size)
  {
    Transfer(Iovec(0, head), if count == 2 then Iovec(0, size) else stale, count, 0, head + size)
  }

  lemma OfferedIsRest(t: Transfer, head: nat, size: nat)
    requires Exact(t, head, size)
    ensures Offered(t) == t.toSend
  { }

  /** What `write` does after `writev` sent `n` bytes, corrected: the head
      is finished once all of it has been sent, and otherwise its first
      vector starts after what was sent. */
  function Advance(t: Transfer, head: nat, n: nat): (r: Transfer)
    ensures r.have == t.have + n && r.toSend == t.toSend - n && r.count == t.count
    ensures r.have < head ==> r.iv0 == Iovec(r.have, head - r.have) && r.iv1 == t.iv1
    ensures r.have >= head ==> r.iv0.len == 0 && r.iv1 == Iovec(r.have - head, r.toSend)
  {
    var have := t.have + n;
    var toSend := t.toSend - n;
    if have >= head then
      t.(iv0 := t.iv0.(len := 0), iv1 := Iovec(have - head, toSend), have := have, toSend := toSend)
    else
      t.(iv0 := Iovec(have, head - have), have := have, toSend := toSend)
  }

  /** `write` as written: the total sent so far is compared with the
      current length of the first vector, which already excludes what an
      earlier call sent, and that length is shortened by the total sent
      rather than by `n`. */
  function AdvanceAsWritten(t: Transfer, head: nat, n: nat): (r: Transfer)
    ensures r.have == t.have + n && r.toSend == t.toSend - n && r.count == t.count
    ensures r.have < t.iv0.len ==> r.iv0 == Iovec(r.have, t.iv0.len - r.have) && r.iv1 == t.iv1
    ensures r.have >= t.iv0.len ==> r.iv0.len == 0 && r.iv1 == Iovec(r.have - head, r.toSend)
  {
    var have := t.have + n;
    var toSend := t.toSend - n;
    if have >= t.iv0.len then
      t.(iv0 := t.iv0.(len := 0), iv1 := Iovec(have - head, toSend), have := have, toSend := toSend)
    else
      t.(iv0 := Iovec(have, t.iv0.len - have), have := have, toSend := toSend)
  }

  /** Sending any part of what is offered keeps the vectors exact. */
  lemma AdvanceKeepsExact(t: Transfer, head: nat, size: nat, n: nat)
    requires Exact(t, head, size) && n <= Offered(t)
    ensures Exact(Advance(t, head, n), head, size)
    ensures Advance(t, head, n).have == t.have + n
  { }

  /** The code as written agrees with the correction except on a partial
      write that follows another partial write of the head. */
  lemma AsWrittenAgreesOutsideHead(t: Transfer, head: nat, size: nat, n: nat)
    requires Exact(t, head, size) && n <= Offered(t)
    requires t.have == 0 || t.have >= head
    ensures AdvanceAsWritten(t, head, n) == Advance(t, head, n)
  { }

  /** A 100-byte head and a 50-byte file, sent 60 bytes and then 10: as
      written, the first vector is dropped with 30 bytes of the head unsent,
      and the second then starts 30 bytes before the file. */
  lemma AsWrittenLosesPlace()
    ensures var t0 := Start(100, 50, 2, Iovec(0, 0));
            var t1 := AdvanceAsWritten(t0, 100, 60);
            var t2 := AdvanceAsWritten(t1, 100, 10);
            && Exact(t1, 100, 50)
            && t2 == Transfer(Iovec(60, 0), Iovec(-30, 80), 2, 70, 80)
            && !Exact(t2, 100, 50)
  {
    var t0 := Start(100, 50, 2, Iovec(0, 0));
    var t1 := AdvanceAsWritten(t0, 100, 60);
    assert t1 == Transfer(Iovec(60, 40), Iovec(0, 50), 2, 60, 90);
  }

  /** The correction on the same writes resumes the head at byte 70. */
  lemma CorrectedKeepsPlace()
    ensures var t0 := Start(100, 50, 2, Iovec(0, 0));
            var t2 := Advance(Advance(t0, 100, 60), 100, 10);
            t2 == Transfer(Iovec(70, 30), Iovec(0, 50), 2, 70, 80) && Exact(t2, 100, 50)
  {
    var t0 := Start(100, 50, 2, Iovec(0, 0));
    assert Advance(t0, 100, 60) == Transfer(Iovec(60, 40), Iovec(0, 50), 2, 60, 90);
  }

  /** With one vector, the same writes as written leave nothing offered
      while 30 bytes remain, so the loop makes no progress. */
  lemma AsWrittenStalls()
    ensures var s0 := Start(100, 0, 1, Iovec(0, 0));
            var s2 := AdvanceAsWritten(AdvanceAsWritten(s0, 100, 60), 100, 10);
            Offered(s2) == 0 && s2.toSend == 30
  {
    var s0 := Start(100, 0, 1, Iovec(0, 0));
    assert AdvanceAsWritten(s0, 100, 60) == Transfer(Iovec(60, 40), Iovec(0, 0), 1, 60, 40);
  }

  // ---------------------------------------------------------------- the bytes

  /** The bytes a `writev` over the vectors gathers, from the head text and
      the file contents. */
  function Gather(t: Transfer, text: seq<char>, file: seq<char>): seq<char>
    requires Exact(t, |text|, |file|)
  {
    (if t.have < |text| then text[t.iv0.base..t.iv0.base + t.iv0.len] else [])
      + (if t.count == 2 then file[t.iv1.base..t.iv1.base + t.iv1.len] else [])
  }

  /** Whatever has been sent, the vectors gather exactly the rest of the stream. */
  lemma GatherIsRest(t: Transfer, text: seq<char>, file: seq<char>)
    requires Exact(t, |text|, |file|)
    ensures Gather(t, text, file) == (text + file)[t.have..]
  {
    var s := text + file;
    if t.have < |text| {
      if t.count == 2 {
        assert file[0..|file|] == file;
        assert s[t.have..] == text[t.have..] + file;
      } else {
        assert file == [];
        assert s == text;
      }
    } else {
      if t.count == 2 {
        assert s[t.have..] == file[t.have - |text|..];
      } else {
        assert file == [];
        assert t.have == |text|;
      }
    }
  }

  /** An answer of `writev`: bytes written, the would-block error, or
      another error. */
  datatype Answer = Wrote(n: nat) | WouldBlock | Failed

  /** How the loop of `write` ends: everything sent, the socket full
      (`EAGAIN`), or a failed write. */
  datatype Flushed = Sent | Blocked | Broken

  /** `writev` cannot write more than it is offered. */
  function Clamp(n: nat, offered: int): nat {
    if offered < 0 then 0 else if n <= offered then n else offered
  }

  /** A script of answers ends with one that stops the loop. */
  predicate Finite(script: seq<Answer>) {
    script != [] && !script[|script| - 1].Wrote?
  }

  /** The loop of `write` against the answers `writev` gives, one per call. */
  function Flush(t: Transfer, head: nat, script: seq<Answer>): (r: (Transfer, Flushed))
    requires Finite(script)
    ensures r.0.count == t.count && r.0.have + r.0.toSend == t.have + t.toSend
    ensures r.0.have >= t.have
    ensures r.1 == Sent ==> r.0.toSend <= 0
    decreases |script|
  {
    match script[0]
    case WouldBlock => (t, Blocked)
    case Failed => (t, Broken)
    case Wrote(n) =>
      var t' := Advance(t, head, Clamp(n, Offered(t)));
      if t'.toSend <= 0 then (t', Sent) else Flush(t', head, script[1..])
  }

  /** The bytes the calls of `writev` sent, in order. */
  function SentBytes(t: Transfer, text: seq<char>, file: seq<char>, script: seq<Answer>): seq<char>
    requires Finite(script) && Exact(t, |text|, |file|)
    decreases |script|
  {
    match script[0]
    case WouldBlock => []
    case Failed => []
    case Wrote(n) =>
      var k := Clamp(n, Offered(t));
      OfferedIsRest(t, |text|, |file|);
      AdvanceKeepsExact(t, |text|, |file|, k);
      var t' := Advance(t, |text|, k);
      Gather(t, text, file)[..k] + (if t'.toSend <= 0 then [] else SentBytes(t', text, file, script[1..]))
  }

  /** Two adjacent slices of a stream make the slice that spans both. */
  lemma AdjacentSlices(s: seq<char>, i: nat, j: nat, k: nat)
    requires i <= j <= k <= |s|
    ensures s[i..j] + s[j..k] == s[i..k]
  { }

  /** The loop keeps the vectors exact; what it sent is the stream from
      where it started to where it stopped, in order and without gaps; and
      when it reports everything sent, the whole stream has gone. */
  lemma {:induction false} FlushSendsStream(t: Transfer, text: seq<char>, file: seq<char>, script: seq<Answer>)
    requires Finite(script) && Exact(t, |text|, |file|)
    decreases |script|
    ensures var (t', how) := Flush(t, |text|, script);
            && Exact(t', |text|, |file|)
            && t.have <= t'.have
            && SentBytes(t, text, file, script) == (text + file)[t.have..t'.have]
            && (how == Sent ==> t'.toSend == 0 && t'.have == |text| + |file|)
            && (how != Sent && t.toSend > 0 ==> t'.toSend > 0)
  {
    var s := text + file;
    match script[0]
    case WouldBlock =>
    case Failed =>
    case Wrote(n) =>
      var k := Clamp(n, Offered(t));
      OfferedIsRest(t, |text|, |file|);
      AdvanceKeepsExact(t, |text|, |file|, k);
      GatherIsRest(t, text, file);
      var t' := Advance(t, |text|, k);
      assert Gather(t, text, file)[..k] == s[t.have..t'.have];
      if t'.toSend > 0 {
        FlushSendsStream(t', text, file, script[1..]);
        var t'' := Flush(t', |text|, script[1..]).0;
        AdjacentSlices(s, t.have, t'.have, t''.have);
      }
  }
}
