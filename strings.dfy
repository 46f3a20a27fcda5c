/**
 * The part of Go's `strings` and `unicode` packages that the quiz uses:
 * `strings.TrimSpace`, which removes every leading and trailing character
 * for which `unicode.IsSpace` holds.
 */
module Strings {

  /**
   * `unicode.IsSpace`: the six ASCII spaces '\t', '\n', '\v', '\f', '\r', ' ',
   * the Latin-1 characters U+0085 (NEL) and U+00A0 (NO-BREAK SPACE), and the
   * other characters of Unicode's White_Space property.
   */
  predicate IsSpace(c: char) {
    || c == '\t' || c == '\n' || c == '\U{000B}' || c == '\U{000C}' || c == '\r' || c == ' '
    || c == '\U{0085}' || c == '\U{00A0}'
    || c == '\U{1680}'
    || ('\U{2000}' <= c <= '\U{200A}')
    || c == '\U{2028}' || c == '\U{2029}' || c == '\U{202F}' || c == '\U{205F}'
    || c == '\U{3000}'
  }

  /** Every character of `s` is a space. */
  predicate AllSpace(s: string) {
    forall i :: 0 <= i < |s| ==> IsSpace(s[i])
  }

  /** `s` neither starts nor ends with a space. */
  predicate Trimmed(s: string) {
    s == [] || (!IsSpace(s[0]) && !IsSpace(s[|s| - 1]))
  }

  /** Drops the leading spaces of `s`. */
  function TrimLeft(s: string): string {
    if s != [] && IsSpace(s[0]) then TrimLeft(s[1..]) else s
  }

  /** Drops the trailing spaces of `s`. */
  function TrimRight(s: string): string {
    if s != [] && IsSpace(s[|s| - 1]) then TrimRight(s[..|s| - 1]) else s
  }

  /**
   * `strings.TrimSpace`: `s` with all leading and trailing spaces removed.
   * Its properties are stated by `TrimSpaceIsSlice` and `TrimSpaceTrimmed`.
   */
  function TrimSpace(s: string): string {
    TrimRight(TrimLeft(s))
  }

  /** `TrimLeft` keeps a suffix, cuts off only spaces, and cuts off all leading ones. */
  lemma {:induction false} TrimLeftSpec(s: string)
    ensures var r := TrimLeft(s);
      && |r| <= |s| && r == s[|s| - |r|..]
      && AllSpace(s[..|s| - |r|])
      && (r == [] || !IsSpace(r[0]))
  {
    if s != [] && IsSpace(s[0]) {
      var tail := s[1..];
      TrimLeftSpec(tail);
      var r := TrimLeft(tail);
      assert TrimLeft(s) == r;
      assert r == s[|s| - |r|..];
      assert tail[..|tail| - |r|] == s[1..|s| - |r|];
      var cut := s[..|s| - |r|];
      forall j | 0 <= j < |cut| ensures IsSpace(cut[j]) {
        if j > 0 {
          assert cut[j] == tail[..|tail| - |r|][j - 1];
        }
      }
    }
  }

  /** `TrimRight` keeps a prefix, cuts off only spaces, and cuts off all trailing ones. */
  lemma {:induction false} TrimRightSpec(s: string)
    ensures var r := TrimRight(s);
      && |r| <= |s| && r == s[..|r|]
      && AllSpace(s[|r|..])
      && (r == [] || !IsSpace(r[|r| - 1]))
  {
    if s != [] && IsSpace(s[|s| - 1]) {
      var init := s[..|s| - 1];
      TrimRightSpec(init);
      var r := TrimRight(init);
      assert TrimRight(s) == r;
      assert r == s[..|r|];
      assert init[|r|..] == s[|r|..|s| - 1];
      forall j | 0 <= j < |s[|r|..]| ensures IsSpace(s[|r|..][j]) {
        if j < |init| - |r| {
          assert s[|r|..][j] == init[|r|..][j];
        } else {
          assert s[|r|..][j] == s[|s| - 1];
        }
      }
    }
  }

  /** The result of `TrimSpace` neither starts nor ends with a space. */
  lemma TrimSpaceTrimmed(s: string)
    ensures Trimmed(TrimSpace(s))
  {
    var left := TrimLeft(s);
    TrimLeftSpec(s);
    TrimRightSpec(left);
    var r := TrimRight(left);
    assert r != [] ==> r[0] == left[0];
  }

  /**
   * What `TrimSpace` keeps: a slice of `s` such that everything cut off on
   * either side is space.
   */
  lemma TrimSpaceIsSlice(s: string)
    ensures exists i :: (0 <= i <= |s| - |TrimSpace(s)|
                         && TrimSpace(s) == s[i..i + |TrimSpace(s)|]
                         && AllSpace(s[..i]) && AllSpace(s[i + |TrimSpace(s)|..]))
  {
    var left := TrimLeft(s);
    TrimLeftSpec(s);
    TrimRightSpec(left);
    var r := TrimRight(left);
    var i := |s| - |left|;
    assert s[i + |r|..] == left[|r|..];
    assert r == s[i..i + |r|];
  }

  /**
   * `TrimSpace` is determined by the two lemmas above: any slice of `s` that
   * neither starts nor ends with a space, and whose cut-off ends are all
   * space, is `TrimSpace(s)`.
   */
  lemma TrimSpaceUnique(s: string, i: nat, r: string)
    requires i + |r| <= |s| && r == s[i..i + |r|]
    requires AllSpace(s[..i]) && AllSpace(s[i + |r|..])
    requires Trimmed(r)
    ensures TrimSpace(s) == r
  {
    assert s == s[..i] + r + s[i + |r|..];
    TrimSpaceIgnoresPadding(s[..i], r, s[i + |r|..]);
    if r != [] {
      assert TrimLeft(r) == r;
      assert TrimRight(r) == r;
    }
  }

  /** A leading run of spaces is cut off completely. */
  lemma {:induction false} TrimLeftSpacePrefix(a: string, t: string)
    requires AllSpace(a)
    ensures TrimLeft(a + t) == TrimLeft(t)
  {
    if a != [] {
      assert (a + t)[1..] == a[1..] + t;
      TrimLeftSpacePrefix(a[1..], t);
    } else {
      assert a + t == t;
    }
  }

  /** A trailing run of spaces is cut off completely. */
  lemma {:induction false} TrimRightSpaceSuffix(t: string, b: string)
    requires AllSpace(b)
    ensures TrimRight(t + b) == TrimRight(t)
  {
    if b != [] {
      assert (t + b)[..|t + b| - 1] == t + b[..|b| - 1];
      TrimRightSpaceSuffix(t, b[..|b| - 1]);
    } else {
      assert t + b == t;
    }
  }

  /** Text after a part that is not all space survives `TrimLeft` untouched. */
  lemma {:induction false} TrimLeftKeepsTail(s: string, b: string)
    requires !AllSpace(s)
    ensures TrimLeft(s + b) == TrimLeft(s) + b
  {
    assert s != [];
    if IsSpace(s[0]) {
      assert (s + b)[1..] == s[1..] + b;
      TrimLeftKeepsTail(s[1..], b);
    }
  }

  /**
   * Surrounding whitespace does not matter: padding `s` with spaces on
   * either side (a trailing newline, say) leaves `TrimSpace` unchanged.
   */
  lemma TrimSpaceIgnoresPadding(a: string, s: string, b: string)
    requires AllSpace(a) && AllSpace(b)
    ensures TrimSpace(a + s + b) == TrimSpace(s)
  {
    assert a + s + b == a + (s + b);
    TrimLeftSpacePrefix(a, s + b);
    if AllSpace(s) {
      AllSpaceConcat(s, b);
      TrimLeftOfAllSpace(s + b);
      TrimLeftOfAllSpace(s);
    } else {
      TrimLeftKeepsTail(s, b);
      TrimRightSpaceSuffix(TrimLeft(s), b);
    }
  }

  lemma AllSpaceConcat(s: string, t: string)
    requires AllSpace(s) && AllSpace(t)
    ensures AllSpace(s + t)
  {
    forall i | 0 <= i < |s + t| ensures IsSpace((s + t)[i]) {
      if i < |s| {
        assert (s + t)[i] == s[i];
      } else {
        assert (s + t)[i] == t[i - |s|];
      }
    }
  }

  lemma TrimLeftOfAllSpace(s: string)
    requires AllSpace(s)
    ensures TrimLeft(s) == []
  {
    TrimLeftSpec(s);
  }

  /** Trimming twice is trimming once. */
  lemma TrimSpaceIdempotent(s: string)
    ensures TrimSpace(TrimSpace(s)) == TrimSpace(s)
  {
    var r := TrimSpace(s);
    TrimSpaceTrimmed(s);
    if r != [] {
      assert TrimLeft(r) == r;
      assert TrimRight(r) == r;
    }
  }
}
