/** The result buffers of the printers: realloc when too small, memset, then written with stpncpy. */
module Buffers {
  import opened CText

  /** A buffer with room for a text of the given length, all NUL: the one given if it is large enough. */
  method Prepare(buf: array<char>, newLen: nat) returns (result: array<char>)
    modifies buf
    ensures if newLen < buf.Length then result == buf else fresh(result) && result.Length == newLen + 1
    ensures result != buf ==> buf[..] == old(buf[..])
    ensures forall i | 0 <= i < result.Length :: result[i] == NUL
  {
    result := buf;
    if result.Length < newLen + 1 {
      result := new char[newLen + 1];
    }
    forall i | 0 <= i < result.Length {
      result[i] := NUL;
    }
  }

  /** memcpy of a text that is not in the buffer. */
  method Copy(buf: array<char>, at: nat, text: string)
    requires at + |text| <= buf.Length
    modifies buf
    ensures buf[at..at + |text|] == text
    ensures forall i | 0 <= i < buf.Length && !(at <= i < at + |text|) :: buf[i] == old(buf[i])
  {
    forall i | 0 <= i < |text| {
      buf[at + i] := text[i];
    }
  }

  /** stpncpy into a buffer that is NUL from offset to on. */
  method Put(buf: array<char>, to: nat, s: string, ghost written: string) returns (end: nat)
    requires to + |s| < buf.Length && to == |written|
    requires buf[..to] == written && forall i | to <= i < buf.Length :: buf[i] == NUL
    modifies buf
    ensures end == to + |s| == |written + s|
    ensures buf[..end] == written + s && forall i | end <= i < buf.Length :: buf[i] == NUL
  {
    end := to;
    var k := 0;
    while k < |s|
      invariant k <= |s| && end == to + k
      invariant buf[..to] == written && buf[to..end] == s[..k]
      invariant forall i | end <= i < buf.Length :: buf[i] == NUL
    {
      buf[end] := s[k];
      k := k + 1;
      end := end + 1;
    }
    assert buf[..end] == buf[..to] + buf[to..end];
  }
}
