/** C strings as Dafny sequences: a C string is the run of characters before
    the first NUL in a buffer, and the queue's payloads are such strings. */
module CStrings {

  datatype Option<+T> = None | Some(value: T)

  const NUL: char := '\0'

  /** A string that a `char *` can hold: it has no NUL inside it. */
  predicate NoNul(s: string) {
    NUL !in s
  }

  function Min(a: int, b: int): (m: int) {
    if a <= b then a else b
  }

  /** The C string stored at the start of `buf`: the characters before the
      first NUL, or None when the buffer holds no terminator at all. */
  function CString(buf: seq<char>): (r: Option<string>)
    ensures r.None? <==> NoNul(buf)
    ensures r.Some? ==> |r.value| < |buf| && buf[|r.value|] == NUL
    ensures r.Some? ==> r.value == buf[..|r.value|] && NoNul(r.value)
  {
    if buf == [] then None
    else if buf[0] == NUL then Some([])
    else match CString(buf[1..])
      case None => None
      case Some(t) => Some([buf[0]] + t)
  }

  /** A buffer whose first NUL sits at index k reads back as its first k characters. */
  lemma CStringAt(buf: seq<char>, k: nat)
    requires k < |buf| && buf[k] == NUL && NoNul(buf[..k])
    ensures CString(buf) == Some(buf[..k])
  {
    assert !NoNul(buf);
    assert forall i :: 0 <= i < k ==> buf[i] == buf[..k][i];
  }

  /** Number of payload characters a bounded copy into a buffer of capacity
      `bufsize` keeps: at most bufsize - 1, leaving room for the terminator. */
  function CopyLength(s: string, bufsize: nat): (k: nat)
    requires bufsize > 0
    ensures k <= |s| && k < bufsize
    ensures k == |s| || k == bufsize - 1
  {
    Min(|s|, bufsize - 1)
  }

  /** The buffer after copying `s` into its first `bufsize` cells as the
      remove-head comment asks: at most bufsize - 1 characters of `s`, then
      a terminator; the cells past the terminator are left as they were. */
  function BoundedCopy(buf: seq<char>, s: string, bufsize: nat): (r: seq<char>)
    requires 0 < bufsize <= |buf|
    ensures |r| == |buf|
    ensures r[CopyLength(s, bufsize) + 1..] == buf[CopyLength(s, bufsize) + 1..]
  {
    var k := CopyLength(s, bufsize);
    s[..k] + [NUL] + buf[k + 1..]
  }

  /** What the bounded copy leaves as a C string is the prefix of the payload
      that fits: the payload itself when it is shorter than the buffer, and
      its first bufsize - 1 characters otherwise (silent truncation). */
  lemma BoundedCopyReadsBack(buf: seq<char>, s: string, bufsize: nat)
    requires 0 < bufsize <= |buf| && NoNul(s)
    ensures CString(BoundedCopy(buf, s, bufsize)) == Some(s[..CopyLength(s, bufsize)])
    ensures |s| < bufsize ==> CString(BoundedCopy(buf, s, bufsize)) == Some(s)
  {
    var k := CopyLength(s, bufsize);
    var r := BoundedCopy(buf, s, bufsize);
    assert r[..k] == s[..k];
    assert r[k] == NUL;
    assert NoNul(r[..k]) by {
      assert forall i :: 0 <= i < k ==> r[..k][i] == s[i];
    }
    CStringAt(r, k);
    assert |s| < bufsize ==> s[..k] == s;
  }

  /** The truncation example: "hello" removed into a buffer of capacity 3
      reads back as "he". */
  lemma TruncationExample(buf: seq<char>)
    requires |buf| >= 3
    ensures CString(BoundedCopy(buf, "hello", 3)) == Some("he")
  {
    BoundedCopyReadsBack(buf, "hello", 3);
    assert "hello"[..2] == "he";
  }

  /** The copy as queue.c writes it: `memmove(sp, value, bufsize - 1)` moves
      bufsize - 1 bytes of the stored payload (its characters and, when they
      reach it, its terminator) and writes nothing more. `stored` is the
      payload's allocation, terminator included; reads past it are not modelled. */
  function MemmoveAsWritten(buf: seq<char>, stored: seq<char>, bufsize: nat): (r: seq<char>)
    requires 0 < bufsize <= |buf| + 1 && bufsize - 1 <= |stored|
    ensures |r| == |buf|
    ensures r[..bufsize - 1] == stored[..bufsize - 1]
    ensures r[bufsize - 1..] == buf[bufsize - 1..]
  {
    stored[..bufsize - 1] + buf[bufsize - 1..]
  }

  /** When the payload does not fit, the code as written copies only payload
      characters and no terminator, so the buffer holds no C string at all
      (here "xyz" becomes "hez"), where the documented copy yields "he". */
  lemma MemmoveAsWrittenUnterminated()
    ensures CString(MemmoveAsWritten("xyz", "hello" + [NUL], 3)) == None
    ensures CString(BoundedCopy("xyz", "hello", 3)) == Some("he")
  {
    var r := MemmoveAsWritten("xyz", "hello" + [NUL], 3);
    assert r == "hez";
    assert NoNul(r);
    TruncationExample("xyz");
  }

  /** The code as written leaves no C string whenever the payload has at
      least bufsize - 1 characters and the untouched rest of the buffer
      holds no NUL: the copied bytes are all payload characters. This
      includes bufsize == |s| + 1, the capacity that fits the payload and
      its terminator exactly. */
  lemma MemmoveAsWrittenNoTerminator(buf: seq<char>, s: string, bufsize: nat)
    requires NoNul(s) && 0 < bufsize <= |buf| && bufsize - 1 <= |s|
    requires NoNul(buf[bufsize - 1..])
    ensures CString(MemmoveAsWritten(buf, s + [NUL], bufsize)) == None
  {
    var r := MemmoveAsWritten(buf, s + [NUL], bufsize);
    assert r == s[..bufsize - 1] + buf[bufsize - 1..] by {
      assert (s + [NUL])[..bufsize - 1] == s[..bufsize - 1];
    }
    forall i | 0 <= i < |r|
      ensures r[i] != NUL
    {
      if i < bufsize - 1 {
        assert r[i] == s[i];
      } else {
        assert r[i] == buf[bufsize - 1..][i - (bufsize - 1)];
      }
    }
  }

  /** The one case in which the code as written leaves the payload: a
      capacity of |s| + 2 moves the payload and its terminator. */
  lemma MemmoveAsWrittenCarriesTerminator(buf: seq<char>, s: string)
    requires NoNul(s) && |s| + 1 <= |buf|
    ensures CString(MemmoveAsWritten(buf, s + [NUL], |s| + 2)) == Some(s)
  {
    var r := MemmoveAsWritten(buf, s + [NUL], |s| + 2);
    assert r[..|s|] == s;
    CStringAt(r, |s|);
  }
}
