/** The C-string handling of file names: the directory stores a name with
    strncpy into a fixed-size char array, and reads it back with Arduino's
    String(const char*), which takes the characters up to the first NUL. */
module CStrings {

  const Nul: char := '\0'

  /** The characters before the first NUL (all of `s` if it has none). */
  function TakeUntilNul(s: seq<char>): (r: seq<char>)
    ensures |r| <= |s| && r == s[..|r|]
    ensures Nul !in r
    ensures |r| < |s| ==> s[|r|] == Nul
  {
    if s == [] || s[0] == Nul then [] else [s[0]] + TakeUntilNul(s[1..])
  }

  /** A name without a NUL is its own C string. */
  lemma {:induction false} TakeUntilNulNoNul(s: seq<char>)
    requires Nul !in s
    ensures TakeUntilNul(s) == s
  {
    if s != [] {
      assert s[0] in s;
      assert forall c :: c in s[1..] ==> c in s;
      TakeUntilNulNoNul(s[1..]);
    }
  }

  function Nuls(n: nat): (r: seq<char>)
    ensures |r| == n && forall i :: 0 <= i < n ==> r[i] == Nul
  {
    if n == 0 then [] else [Nul] + Nuls(n - 1)
  }

  /** strncpy(dst, s.c_str(), n): the characters of `s` up to its first NUL
      (the end of `s` counts as one), at most n of them, and the rest of the
      n-byte destination filled with NULs. */
  function Strncpy(s: seq<char>, n: nat): (dst: seq<char>)
    ensures |dst| == n
    ensures forall i :: |TakeUntilNul(s)| <= i < n ==> dst[i] == Nul
  {
    if n == 0 then []
    else if s == [] || s[0] == Nul then Nuls(n)
    else
      [s[0]] + Strncpy(s[1..], n - 1)
  }

  /** A name shorter than the destination is stored terminated: the byte
      after its C string is a NUL. */
  lemma StrncpyTerminated(s: seq<char>, n: nat)
    requires |s| < n
    ensures Nul in Strncpy(s, n)
  {
    assert Strncpy(s, n)[|TakeUntilNul(s)|] == Nul;
  }

  /** A name shorter than the destination is stored whole, so reading the
      stored array back as a C string gives the name's C string. */
  lemma {:induction false} StrncpyRoundTrip(s: seq<char>, n: nat)
    requires |s| < n
    ensures TakeUntilNul(Strncpy(s, n)) == TakeUntilNul(s)
  {
    var dst := Strncpy(s, n);
    if s == [] || s[0] == Nul {
      assert TakeUntilNul(dst) == [] by {
        assert dst == Nuls(n);
        assert dst[0] == Nul;
      }
      assert TakeUntilNul(s) == [];
    } else {
      var rest := Strncpy(s[1..], n - 1);
      assert TakeUntilNul(dst) == [s[0]] + TakeUntilNul(rest) by {
        assert dst == [s[0]] + rest;
        assert dst[1..] == rest;
      }
      StrncpyRoundTrip(s[1..], n - 1);
      assert TakeUntilNul(s) == [s[0]] + TakeUntilNul(s[1..]);
    }
  }
}
