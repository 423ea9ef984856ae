/** C strings held in byte buffers, and the two trimming helpers the agent
    poller and the history backend apply to them (zbx_rtrim and zbx_ltrim).

    A buffer is the memory from the start of a `char *` onwards; the string
    a C reader sees in it is the prefix before the first NUL. Memory past the
    end of a modelled buffer reads as NUL (the socket buffers involved are
    zero-filled before use). */
module CStrings {

  const NUL: char := '\0'

  /** The C string stored at the start of `buf`. */
  function CStr(buf: seq<char>): (s: seq<char>)
    ensures |s| <= |buf| && s == buf[..|s|]
    ensures NUL !in s
    ensures |s| < |buf| ==> buf[|s|] == NUL
  {
    if |buf| == 0 || buf[0] == NUL then [] else [buf[0]] + CStr(buf[1..])
  }

  /** The C string that starts `k` bytes into the buffer (`buf + k`). */
  function CStrAt(buf: seq<char>, k: nat): seq<char>
  {
    if k <= |buf| then CStr(buf[k..]) else []
  }

  /** A NUL-free string reads back unchanged from a buffer that holds it
      followed by a NUL and anything else. */
  lemma {:induction false} CStrOfTerminated(s: seq<char>, rest: seq<char>)
    requires NUL !in s
    ensures CStr(s + [NUL] + rest) == s
  {
    if s != [] {
      assert (s + [NUL] + rest)[1..] == s[1..] + [NUL] + rest;
      CStrOfTerminated(s[1..], rest);
    }
  }

  /** A NUL-free buffer is read whole. */
  lemma {:induction false} CStrOfUnterminated(s: seq<char>)
    requires NUL !in s
    ensures CStr(s) == s
  {
    if s != [] {
      CStrOfUnterminated(s[1..]);
    }
  }

  /** A buffer that starts with a NUL-free `s` followed by a NUL, or by the
      end of the buffer, reads as `s`. */
  lemma {:induction false} CStrOfPrefix(buf: seq<char>, s: seq<char>)
    requires NUL !in s && |s| <= |buf| && buf[..|s|] == s
    requires |s| < |buf| ==> buf[|s|] == NUL
    ensures CStr(buf) == s
  {
    if |s| < |buf| {
      assert buf == s + [NUL] + buf[|s| + 1..];
      CStrOfTerminated(s, buf[|s| + 1..]);
    } else {
      assert buf == s;
      CStrOfUnterminated(s);
    }
  }

  /** `s` without its longest suffix made of characters in `cs`. */
  function RTrimmed(s: seq<char>, cs: set<char>): (r: seq<char>)
    ensures |r| <= |s| && r == s[..|r|]
    ensures |r| > 0 ==> r[|r| - 1] !in cs
    ensures forall k :: |r| <= k < |s| ==> s[k] in cs
    ensures |s| > 0 && s[|s| - 1] !in cs ==> r == s
  {
    if |s| > 0 && s[|s| - 1] in cs then RTrimmed(s[..|s| - 1], cs) else s
  }

  /** `s` without its longest prefix made of characters in `cs`. */
  function LTrimmed(s: seq<char>, cs: set<char>): (r: seq<char>)
    ensures |r| <= |s| && r == s[|s| - |r|..]
    ensures |r| > 0 ==> r[0] !in cs
    ensures forall k :: 0 <= k < |s| - |r| ==> s[k] in cs
    ensures |s| > 0 && s[0] !in cs ==> r == s
  {
    if |s| > 0 && s[0] in cs then
      var r := LTrimmed(s[1..], cs);
      assert s[1..][|s| - 1 - |r|..] == s[|s| - |r|..];
      assert forall k :: 1 <= k < |s| - |r| ==> s[k] == s[1..][k - 1];
      r
    else s
  }

  /** `n` NUL bytes. */
  function Nuls(n: nat): (z: seq<char>)
    ensures |z| == n && forall k :: 0 <= k < n ==> z[k] == NUL
  {
    if n == 0 then [] else Nuls(n - 1) + [NUL]
  }

  /** The buffer after zbx_rtrim(buf, cs): every trailing character of the
      C string that is in `cs` is overwritten with NUL; nothing else moves. */
  function RTrimBuffer(buf: seq<char>, cs: set<char>): (b: seq<char>)
    ensures |b| == |buf|
    ensures CStr(b) == RTrimmed(CStr(buf), cs)
    ensures forall k :: |CStr(buf)| <= k < |buf| ==> b[k] == buf[k]
    ensures RTrimmed(CStr(buf), cs) == CStr(buf) ==> b == buf
  {
    var s := CStr(buf);
    var r := RTrimmed(s, cs);
    var b := r + Nuls(|s| - |r|) + buf[|s|..];
    CStrOfPrefix(b, r);
    assert Nuls(0) == [];
    assert r == s ==> b == buf[..|s|] + buf[|s|..];
    b
  }

  /** The buffer after zbx_ltrim(buf, cs): the C string is moved left over
      its leading characters in `cs` and re-terminated; the bytes after the
      new terminator keep their old values. */
  function LTrimBuffer(buf: seq<char>, cs: set<char>): (b: seq<char>)
    ensures |b| == |buf|
    ensures CStr(b) == LTrimmed(CStr(buf), cs)
    ensures |LTrimmed(CStr(buf), cs)| < |CStr(buf)| ==>
              b[|LTrimmed(CStr(buf), cs)| + 1..] == buf[|LTrimmed(CStr(buf), cs)| + 1..]
    ensures |LTrimmed(CStr(buf), cs)| == |CStr(buf)| ==> b == buf
  {
    var s := CStr(buf);
    var r := LTrimmed(s, cs);
    if |r| == |s| then
      assert r == s;
      buf
    else
      assert |r| < |s| <= |buf|;
      var b := r + [NUL] + buf[|r| + 1..];
      assert b[..|r|] == r && b[|r|] == NUL;
      assert b[|r| + 1..] == buf[|r| + 1..];
      CStrOfPrefix(b, r);
      b
  }
}
