/**
 * C string conventions used by the queue: the values are NUL-terminated
 * character strings, a copy-out buffer is read up to its first NUL, and
 * strings are ordered as `strcmp` orders them.
 */
module CStrings {

  /** The terminator byte '\0'. */
  const Nul: char := 0 as char

  /** The largest value of a C `int`. */
  const IntMax: int := 0x7fff_ffff

  /** A C string's characters: everything before its terminator, so no NUL. */
  predicate NoNul(s: string) {
    forall i :: 0 <= i < |s| ==> s[i] != Nul
  }

  /** The string a C reader sees in `buf`: the characters before the first NUL. */
  function CString(buf: seq<char>): (r: string)
    ensures NoNul(r) && |r| <= |buf| && r == buf[..|r|]
    ensures |r| < |buf| ==> buf[|r|] == Nul
  {
    if buf == [] || buf[0] == Nul then [] else [buf[0]] + CString(buf[1..])
  }

  /** A buffer that holds `p` followed by a NUL is read back as exactly `p`. */
  lemma {:induction false} CStringOfTerminated(buf: seq<char>, p: string)
    requires NoNul(p) && |p| < |buf| && buf[..|p|] == p && buf[|p|] == Nul
    ensures CString(buf) == p
  {
    if p != [] {
      assert buf[0] == p[0];
      assert buf[1..][..|p| - 1] == p[1..];
      CStringOfTerminated(buf[1..], p[1..]);
    }
  }

  /**
   * Lexicographic order on strings, as `strcmp(a, b) <= 0` decides it:
   * characters compared one by one, a proper prefix comes first.
   */
  predicate StrLe(a: string, b: string) {
    a == [] || (b != [] && (a[0] < b[0] || (a[0] == b[0] && StrLe(a[1..], b[1..]))))
  }

  lemma {:induction false} StrLeAntisymmetric(a: string, b: string)
    requires StrLe(a, b) && StrLe(b, a)
    ensures a == b
  {
    if a != [] {
      assert b != [] && a[0] == b[0];
      StrLeAntisymmetric(a[1..], b[1..]);
      assert a == [a[0]] + a[1..];
      assert b == [b[0]] + b[1..];
    }
  }

  lemma {:induction false} StrLeTransitive(a: string, b: string, c: string)
    requires StrLe(a, b) && StrLe(b, c)
    ensures StrLe(a, c)
  {
    if a != [] && a[0] == b[0] && b[0] == c[0] {
      StrLeTransitive(a[1..], b[1..], c[1..]);
    }
  }
}
