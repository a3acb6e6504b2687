/** The line splitter of the connection (`parse_line`): it looks for the next
    CR LF in the filled part of the read buffer, starting where the previous
    scan stopped, and turns the pair into two NULs so that the line before it
    reads as a C string. */
module LineSplitter {
  import opened CStrings

  datatype LineStatus = LineOk | LineBad | LineOpen

  predicate IsDelim(c: char) { c == CR || c == LF }

  /** No CR and no LF in `buf[from..to)`. */
  ghost predicate Plain(buf: seq<char>, from: int, to: int)
    requires 0 <= from && to <= |buf|
  {
    forall k :: from <= k < to ==> !IsDelim(buf[k])
  }

  /** The scan of `buf[i..end)`: the status it reports and where the checked
      index stops. The contract classifies the outcome by the first CR or LF
      at or after `i`. */
  function Scan(buf: seq<char>, i: nat, end: nat): (r: (LineStatus, nat))
    requires i <= end <= |buf|
    decreases end - i
    ensures i <= r.1 <= end
    ensures r.0 == LineOk ==>
      && i < r.1 && 2 <= r.1
      && buf[r.1 - 2] == CR && buf[r.1 - 1] == LF
      && Plain(buf, i, r.1 - 2)
    ensures r.0 == LineOpen ==>
      || (r.1 == end && Plain(buf, i, end))
      || (r.1 == end - 1 && buf[r.1] == CR && Plain(buf, i, r.1))
    ensures r.0 == LineBad ==>
      && r.1 < end && Plain(buf, i, r.1)
      && (|| (buf[r.1] == CR && r.1 + 1 < end && buf[r.1 + 1] != LF)
          || (buf[r.1] == LF && !(r.1 > 1 && buf[r.1 - 1] == CR)))
  {
    if i == end then (LineOpen, end)
    else if buf[i] == CR then
      if i + 1 == end then (LineOpen, i)
      else if buf[i + 1] == LF then (LineOk, i + 2)
      else (LineBad, i)
    else if buf[i] == LF then
      if i > 1 && buf[i - 1] == CR then (LineOk, i + 1)
      else (LineBad, i)
    else Scan(buf, i + 1, end)
  }

  /** A scan passes over bytes that are neither CR nor LF without looking back. */
  lemma {:induction false} ScanSkipsPlain(buf: seq<char>, i: nat, k: nat, end: nat)
    requires i <= k <= end <= |buf|
    requires Plain(buf, i, k)
    ensures Scan(buf, i, end) == Scan(buf, k, end)
    decreases k - i
  {
    if i < k {
      ScanSkipsPlain(buf, i + 1, k, end);
    }
  }

  /** The buffer after the scan: on `LineOk` the CR and the LF just before the
      new checked index become NUL; otherwise nothing is written. */
  function Terminate(buf: seq<char>, status: LineStatus, k: nat): (r: seq<char>)
    requires status == LineOk ==> 2 <= k <= |buf|
    ensures |r| == |buf|
    ensures status == LineOk ==>
      && r[k - 2] == NUL && r[k - 1] == NUL
      && forall i :: 0 <= i < |buf| && i != k - 2 && i != k - 1 ==> r[i] == buf[i]
    ensures status != LineOk ==> r == buf
  {
    if status == LineOk then buf[k - 2 := NUL][k - 1 := NUL] else buf
  }

  /** A scan that stopped with `LineOpen` at `k` can be resumed from `k` after
      more bytes arrive: scanning the longer buffer from `i` gives exactly what
      scanning it from `k` gives, so no byte before `k` is examined twice and
      the outcome does not depend on how the input was split across reads. */
  lemma {:induction false} ScanResumes(buf: seq<char>, more: seq<char>, i: nat, end: nat, end': nat)
    requires i <= end <= end' <= |more| && end <= |buf|
    requires buf[..end] == more[..end]
    requires Scan(buf, i, end).0 == LineOpen
    ensures Scan(more, i, end') == Scan(more, Scan(buf, i, end).1, end')
    decreases end - i
  {
    if i < end {
      assert buf[i] == more[i] by { assert buf[..end][i] == more[..end][i]; }
      if !IsDelim(buf[i]) {
        ScanResumes(buf, more, i + 1, end, end');
      }
    }
  }

  /** A scan that did not find a line stops where a new scan of the same
      bytes reports the same thing again. */
  lemma {:induction false} ScanStable(buf: seq<char>, i: nat, end: nat)
    requires i <= end <= |buf|
    requires Scan(buf, i, end).0 != LineOk
    ensures Scan(buf, Scan(buf, i, end).1, end) == Scan(buf, i, end)
    decreases end - i
  {
    if i < end && !IsDelim(buf[i]) {
      ScanStable(buf, i + 1, end);
    }
  }
}
