/**
 NUL-terminated strings as the user programs see them. A C string held in a
 character array is the characters before the first NUL; a string value
 handed around by the model (a path, a file name) is such a character
 sequence with no NUL in it.
 */
module CString {

  const NUL: char := 0 as char

  /** True iff `s` can be the characters of a C string. */
  predicate NulFree(s: seq<char>)
  {
    NUL !in s
  }

  /** The C string stored at the start of `mem`: everything before the first NUL. */
  function CStr(mem: seq<char>): (r: seq<char>)
    ensures NulFree(r)
    ensures |r| <= |mem| && r == mem[..|r|]
    ensures |r| < |mem| ==> mem[|r|] == NUL
  {
    if |mem| == 0 || mem[0] == NUL then [] else [mem[0]] + CStr(mem[1..])
  }

  /** The C string stored in `mem` is `s` when `s` is written there followed by a NUL. */
  lemma {:induction false} CStrOfTerminated(mem: seq<char>, s: seq<char>)
    requires NulFree(s) && |s| < |mem| && mem[..|s|] == s && mem[|s|] == NUL
    ensures CStr(mem) == s
  {
    if |s| > 0 {
      assert mem[0] == s[0] != NUL;
      assert mem[1..][..|s| - 1] == s[1..];
      CStrOfTerminated(mem[1..], s[1..]);
    }
  }

  /** A string without NUL reads back as itself. */
  lemma {:induction false} CStrOfNulFree(s: seq<char>)
    requires NulFree(s)
    ensures CStr(s) == s
  {
    if |s| > 0 {
      assert s[0] != NUL;
      CStrOfNulFree(s[1..]);
      assert s == [s[0]] + s[1..];
    }
  }

  /** The character `*p` of C code at the start of `s`: NUL past the end. */
  function Head(s: seq<char>): char
  {
    if |s| == 0 then NUL else s[0]
  }

  /**
   strcmp of the user library: advance while `*p` is non-zero and equals
   `*q`, then return the difference of the two characters' codes. A C byte
   is a character below 256, for which this is the difference of the
   unsigned bytes.
   */
  function Strcmp(p: seq<char>, q: seq<char>): int
    decreases |p|
  {
    if Head(p) != NUL && Head(p) == Head(q) then Strcmp(p[1..], q[1..])
    else Head(p) as int - Head(q) as int
  }

  /** strcmp returns zero exactly when the two strings are equal. */
  lemma {:induction false} StrcmpZeroIff(p: seq<char>, q: seq<char>)
    requires NulFree(p) && NulFree(q)
    ensures Strcmp(p, q) == 0 <==> p == q
    decreases |p|
  {
    if |p| > 0 && |q| > 0 && p[0] == q[0] {
      assert p[0] != NUL;
      StrcmpZeroIff(p[1..], q[1..]);
      assert p == [p[0]] + p[1..] && q == [q[0]] + q[1..];
    } else if |p| > 0 {
      assert p[0] != NUL;
      if |q| > 0 { assert q[0] != NUL; }
    } else if |q| > 0 {
      assert q[0] != NUL;
    }
  }

  /** strcmp looks no further than each argument's first NUL. */
  lemma {:induction false} StrcmpReadsCStr(p: seq<char>, q: seq<char>)
    ensures Strcmp(p, q) == Strcmp(CStr(p), CStr(q))
    decreases |p|
  {
    if Head(p) != NUL && Head(p) == Head(q) {
      StrcmpReadsCStr(p[1..], q[1..]);
      assert CStr(p)[1..] == CStr(p[1..]);
      assert CStr(q)[1..] == CStr(q[1..]);
    }
  }

  /** Memory that starts with `t` and then a NUL holds the same C string as `t` does. */
  lemma {:induction false} CStrOfPrefix(mem: seq<char>, t: seq<char>)
    requires |t| < |mem| && mem[..|t|] == t && mem[|t|] == NUL
    ensures CStr(mem) == CStr(t)
  {
    if |t| > 0 {
      assert mem[0] == t[0];
      if t[0] != NUL {
        assert mem[1..][..|t| - 1] == t[1..];
        CStrOfPrefix(mem[1..], t[1..]);
      }
    }
  }
}
