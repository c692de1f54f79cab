/** The pieces of C semantics that the TFT display callback relies on:
    bytes, the truncating remainder operator on `int`, and NUL-terminated strings. */
module CSemantics {

  /** A C `char` as the display driver reads it: one unsigned byte. */
  newtype byte = b: int | 0 <= b < 256

  /** The terminating NUL of a C string. */
  const NUL: byte := 0

  /** Largest value of a 32-bit C `int`. */
  const IntMax: int := 0x7fff_ffff

  /** C's `a / b` for `b > 0`: the quotient truncates toward zero (C11 section 6.5.5),
      unlike Dafny's Euclidean `/`, which rounds negative quotients down. */
  function CDiv(a: int, b: int): int
    requires b > 0
  {
    if a >= 0 then a / b else -((-a) / b)
  }

  /** C's `a % b` for `b > 0`: what is left after the truncated quotient, so the
      remainder keeps the sign of the dividend (`-15 % 20 == -15` in C, where
      Dafny's Euclidean `%` gives 5). */
  function CRem(a: int, b: int): (r: int)
    requires b > 0
    ensures a >= 0 ==> 0 <= r < b
    ensures a < 0 ==> -b < r <= 0
  {
    if a >= 0 then a % b else -((-a) % b)
  }

  /** The identity C11 section 6.5.5 requires of `/` and `%`: `(a/b)*b + a%b == a`. */
  lemma CDivRem(a: int, b: int)
    requires b > 0
    ensures CDiv(a, b) * b + CRem(a, b) == a
  {
  }

  /** The loop guard `len_remaining % width > 0` holds exactly when something is left
      and it is not a whole number of widths. */
  lemma CRemPositive(a: int, b: int)
    requires b > 0
    ensures CRem(a, b) > 0 <==> a > 0 && a % b != 0
  {
    if a >= 0 {
      assert CRem(a, b) == a % b;
      if a == 0 { assert a % b == 0; }
    }
  }

  /** What a C routine taking a `const char *` sees of a buffer: the bytes before the
      first NUL (all of them when there is none). */
  function CString(s: seq<byte>): (r: seq<byte>)
    ensures |r| <= |s| && r == s[..|r|]
    ensures NUL !in r
    ensures |r| < |s| ==> s[|r|] == NUL
  {
    if s == [] || s[0] == NUL then [] else [s[0]] + CString(s[1..])
  }

  /** A buffer whose last byte is NUL holds a string shorter than the buffer: a
      buffer of `n + 1` bytes NUL-terminated at index `n` holds at most `n` characters. */
  lemma TerminatedStringFits(s: seq<byte>)
    requires |s| > 0 && s[|s| - 1] == NUL
    ensures |CString(s)| < |s|
  {
    assert s[..|s|] == s;
  }

  /** A buffer holding bytes none of which is NUL, followed by a NUL, holds exactly
      those bytes as its string. */
  lemma {:induction false} CStringOfTerminated(s: seq<byte>)
    requires NUL !in s
    ensures CString(s + [NUL]) == s
  {
    if s == [] {
      assert s + [NUL] == [NUL];
    } else {
      assert s[0] in s;
      assert (s + [NUL])[1..] == s[1..] + [NUL];
      assert NUL !in s[1..] by {
        forall i | 0 <= i < |s[1..]|
          ensures s[1..][i] != NUL
        {
          assert s[1..][i] == s[i + 1];
        }
      }
      CStringOfTerminated(s[1..]);
      assert [s[0]] + s[1..] == s;
    }
  }

  // ---------------------------------------------------------------------------
  // Arithmetic and sequence facts used by the proofs

  /** Quotient and remainder are determined by the division identity and the
      remainder's range. */
  lemma DivModUnique(n: int, w: int, q: int, r: int)
    requires w > 0 && 0 <= r < w && n == q * w + r
    ensures n / w == q && n % w == r
  {
    var q', r' := n / w, n % w;
    assert n == q' * w + r';
    var d := q - q';
    assert d * w == r' - r;
    MulAtLeast(d, w);
    MulAtLeast(-d, w);
  }

  /** Taking one width off leaves the remainder and lowers the quotient by one. */
  lemma ShiftDivMod(n: int, w: int)
    requires w > 0
    ensures (n - w) % w == n % w && (n - w) / w == n / w - 1
  {
    assert n == (n / w) * w + n % w;
    assert n - w == (n / w - 1) * w + n % w;
    DivModUnique(n - w, w, n / w - 1, n % w);
  }

  /** A product with a factor of at least one is at least the other factor. */
  lemma MulAtLeast(d: int, w: int)
    ensures d >= 1 && w > 0 ==> d * w >= w
  {
    if d >= 1 && w > 0 {
      assert d * w == w + (d - 1) * w;
    }
  }

  /** Concatenation regroups freely. */
  lemma AppendAssoc<T>(a: seq<T>, b: seq<T>, c: seq<T>)
    ensures (a + b) + c == a + (b + c)
  {
  }
}
