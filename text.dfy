/**
 * The parts of Rust's `str` API that the request helpers use:
 * `split` with a string pattern (a left-to-right scan that cuts at each
 * non-overlapping match), and `split_whitespace().next()`.
 */
module Text {

  /** `s.starts_with(prefix)`: `s` is `prefix` followed by the rest of `s`. */
  predicate StartsWith(s: string, prefix: string)
  {
    |prefix| <= |s| && s[..|prefix|] == prefix
  }

  /** A text starts with `prefix` exactly when it is `prefix` followed by more. */
  lemma StartsWithIff(s: string, prefix: string)
    ensures StartsWith(s, prefix) <==> |prefix| <= |s| && s == prefix + s[|prefix|..]
  {
    if |prefix| <= |s| {
      assert s == s[..|prefix|] + s[|prefix|..];
    }
  }

  /** `pat` occurs in `s` starting at index `j`. */
  predicate OccursAt(s: string, pat: string, j: int)
  {
    0 <= j && j + |pat| <= |s| && s[j..j + |pat|] == pat
  }

  predicate Contains(s: string, pat: string)
  {
    exists j | 0 <= j <= |s| - |pat| :: OccursAt(s, pat, j)
  }

  /**
   * `s.split(sep)`: the scan looks for `sep` at each position from the left;
   * where it matches, the current piece ends and the scan resumes right after
   * the match. There is always at least one piece, and the first piece is a
   * prefix of `s`.
   */
  function Split(s: string, sep: string): (parts: seq<string>)
    requires sep != []
    ensures |parts| >= 1
    ensures StartsWith(s, parts[0])
    decreases |s|
  {
    if |s| < |sep| then [s]
    else if s[..|sep|] == sep then [""] + Split(s[|sep|..], sep)
    else
      var rest := Split(s[1..], sep);
      [[s[0]] + rest[0]] + rest[1..]
  }

  /** The pieces glued back together with `sep` between neighbours. */
  function Join(parts: seq<string>, sep: string): string
    requires |parts| >= 1
  {
    if |parts| == 1 then parts[0] else parts[0] + sep + Join(parts[1..], sep)
  }

  /** `Iterator::last` on a nonempty sequence: the element it ends with. */
  function Last<T>(s: seq<T>): T
    requires |s| >= 1
  {
    s[|s| - 1]
  }

  lemma {:induction false} JoinLast(parts: seq<string>, sep: string)
    requires |parts| >= 2
    ensures Join(parts, sep) == Join(parts[..|parts| - 1], sep) + sep + Last(parts)
    decreases |parts|
  {
    if |parts| > 2 {
      JoinLast(parts[1..], sep);
      assert parts[1..][..|parts| - 2] == parts[..|parts| - 1][1..];
    }
  }

  /**
   * The last piece of a split, the one `.last()` yields: a suffix of the text
   * with no separator in it, and the whole text exactly when the separator
   * does not occur.
   */
  lemma SplitLast(s: string, sep: string)
    requires sep != []
    ensures var l := Last(Split(s, sep));
      && |l| <= |s| && s[|s| - |l|..] == l
      && !Contains(l, sep)
      && (l == s <==> !Contains(s, sep))
  {
    var pieces := Split(s, sep);
    SplitJoin(s, sep);
    SplitPiecesFree(s, sep);
    SplitSingleIff(s, sep);
    var l := Last(pieces);
    if |pieces| > 1 {
      JoinLast(pieces, sep);
      var head := Join(pieces[..|pieces| - 1], sep);
      assert s == head + sep + l;
      assert s[|s| - |l|..] == l;
    }
  }

  /** Number of occurrences of the character `c` in `s`. */
  function CountChar(s: string, c: char): nat
  {
    if s == [] then 0 else (if s[0] == c then 1 else 0) + CountChar(s[1..], c)
  }

  lemma JoinCons(x: string, parts: seq<string>, sep: string)
    requires |parts| >= 1
    ensures Join([x] + parts, sep) == x + sep + Join(parts, sep)
  {
    assert ([x] + parts)[1..] == parts;
  }

  /** Splitting loses nothing: joining the pieces with the separator gives the text back. */
  lemma {:induction false} SplitJoin(s: string, sep: string)
    requires sep != []
    ensures Join(Split(s, sep), sep) == s
    decreases |s|
  {
    if |s| < |sep| {
    } else if s[..|sep|] == sep {
      var rest := Split(s[|sep|..], sep);
      assert Split(s, sep) == [""] + rest;
      SplitJoin(s[|sep|..], sep);
      JoinCons("", rest, sep);
      assert s == sep + s[|sep|..];
    } else {
      var rest := Split(s[1..], sep);
      assert Split(s, sep) == [[s[0]] + rest[0]] + rest[1..];
      SplitJoin(s[1..], sep);
      JoinPrepend(s[0], rest, sep);
      assert s == [s[0]] + s[1..];
    }
  }

  /** A character put before the first piece comes out before the joined text. */
  lemma JoinPrepend(c: char, parts: seq<string>, sep: string)
    requires |parts| >= 1
    ensures Join([[c] + parts[0]] + parts[1..], sep) == [c] + Join(parts, sep)
  {
    if |parts| > 1 {
      JoinCons(parts[0], parts[1..], sep);
      assert parts == [parts[0]] + parts[1..];
      JoinCons([c] + parts[0], parts[1..], sep);
    }
  }

  /** No piece contains the separator. */
  lemma {:induction false} SplitPiecesFree(s: string, sep: string)
    requires sep != []
    ensures forall i :: 0 <= i < |Split(s, sep)| ==> !Contains(Split(s, sep)[i], sep)
    decreases |s|
  {
    if |s| < |sep| {
      assert !Contains(s, sep) by {
        forall j ensures !OccursAt(s, sep, j) {}
      }
    } else if s[..|sep|] == sep {
      SplitPiecesFree(s[|sep|..], sep);
      var rest := Split(s[|sep|..], sep);
      assert !Contains("", sep) by {
        forall j ensures !OccursAt("", sep, j) {}
      }
      forall i | 0 <= i < |Split(s, sep)| ensures !Contains(Split(s, sep)[i], sep) {
        if i > 0 { assert Split(s, sep)[i] == rest[i - 1]; }
      }
    } else {
      SplitPiecesFree(s[1..], sep);
      var rest := Split(s[1..], sep);
      var first := [s[0]] + rest[0];
      assert StartsWith(s, first) by {
        assert s == [s[0]] + s[1..];
      }
      PrependNoMatch(s, rest[0], sep);
      forall i | 0 <= i < |Split(s, sep)| ensures !Contains(Split(s, sep)[i], sep) {
        if i > 0 { assert Split(s, sep)[i] == rest[i]; }
      }
    }
  }

  /**
   * Putting the first character of `s` before a separator-free prefix `p` of
   * `s[1..]` keeps it separator-free, provided `s` does not start with `sep`.
   */
  lemma PrependNoMatch(s: string, p: string, sep: string)
    requires sep != [] && |sep| <= |s| && s[..|sep|] != sep
    requires !Contains(p, sep) && StartsWith(s, [s[0]] + p)
    ensures !Contains([s[0]] + p, sep)
  {
    var first := [s[0]] + p;
    forall j | 0 <= j <= |first| - |sep| ensures !OccursAt(first, sep, j) {
      if j == 0 {
        assert first[..|sep|] == s[..|sep|];
      } else {
        assert first[j..j + |sep|] == p[j - 1..j - 1 + |sep|];
        assert !OccursAt(p, sep, j - 1);
      }
    }
  }

  /** There is exactly one piece precisely when the separator does not occur. */
  lemma {:induction false} SplitSingleIff(s: string, sep: string)
    requires sep != []
    ensures |Split(s, sep)| == 1 <==> !Contains(s, sep)
    ensures !Contains(s, sep) ==> Split(s, sep) == [s]
  {
    SplitJoin(s, sep);
    SplitPiecesFree(s, sep);
    if !Contains(s, sep) {
      SplitWithoutSep(s, sep);
    }
  }

  lemma {:induction false} SplitWithoutSep(s: string, sep: string)
    requires sep != [] && !Contains(s, sep)
    ensures Split(s, sep) == [s]
    decreases |s|
  {
    if |s| < |sep| {
    } else {
      assert s[..|sep|] != sep by {
        if s[..|sep|] == sep { assert OccursAt(s, sep, 0); }
      }
      assert !Contains(s[1..], sep) by {
        forall j | OccursAt(s[1..], sep, j) ensures false {
          assert s[1..][j..j + |sep|] == s[j + 1..j + 1 + |sep|];
          assert OccursAt(s, sep, j + 1);
        }
      }
      SplitWithoutSep(s[1..], sep);
      assert s == [s[0]] + s[1..];
    }
  }

  /**
   * When the first match of `sep` in `h + sep + b` is the one right after `h`,
   * the first piece is `h` and the rest is the split of `b`. The condition says
   * that no match starts inside `h`.
   */
  lemma {:induction false} SplitAfterFirst(h: string, sep: string, b: string)
    requires sep != []
    requires !Contains(h + sep[..|sep| - 1], sep)
    ensures Split(h + sep + b, sep) == [h] + Split(b, sep)
    decreases |h|
  {
    var s := h + sep + b;
    if h == [] {
      assert s == sep + b;
      assert s[..|sep|] == sep;
      assert s[|sep|..] == b;
    } else {
      NoMatchInTail(h, sep, b);
      SplitAfterFirst(h[1..], sep, b);
      assert s[1..] == h[1..] + sep + b;
      assert [s[0]] + h[1..] == h;
    }
  }

  /**
   * The hypothesis of `SplitAfterFirst` for a nonempty `h`: `sep` does not
   * start the text, and the hypothesis holds again for `h[1..]`.
   */
  lemma NoMatchInTail(h: string, sep: string, b: string)
    requires sep != [] && h != []
    requires !Contains(h + sep[..|sep| - 1], sep)
    ensures |sep| <= |h + sep + b| && (h + sep + b)[..|sep|] != sep
    ensures !Contains(h[1..] + sep[..|sep| - 1], sep)
  {
    var s := h + sep + b;
    var t := h + sep[..|sep| - 1];
    assert s[..|sep|] == t[..|sep|];
    assert s[..|sep|] != sep by {
      if s[..|sep|] == sep { assert OccursAt(t, sep, 0); }
    }
    var t' := h[1..] + sep[..|sep| - 1];
    forall j | 0 <= j <= |t'| - |sep| ensures !OccursAt(t', sep, j) {
      assert t'[j..j + |sep|] == t[j + 1..j + 1 + |sep|];
      assert !OccursAt(t, sep, j + 1);
    }
  }

  /** With a one-character separator, each occurrence adds exactly one piece. */
  lemma {:induction false} SplitCount(s: string, c: char)
    ensures |Split(s, [c])| == CountChar(s, c) + 1
    decreases |s|
  {
    if s != [] {
      SplitCount(s[1..], c);
      assert s[..1] == [s[0]];
    }
  }

  /**
   * With a one-character separator absent from `a`, the first piece of
   * `a + b` is `a` followed by the first piece of `b`.
   */
  lemma {:induction false} SplitFirstExtends(a: string, b: string, c: char)
    requires c !in a
    ensures Split(a + b, [c])[0] == a + Split(b, [c])[0]
    decreases |a|
  {
    if a == [] {
      assert a + b == b;
    } else {
      var s := a + b;
      assert s[..1] == [a[0]];
      assert s[1..] == a[1..] + b;
      SplitFirstExtends(a[1..], b, c);
      assert [a[0]] + a[1..] == a;
    }
  }

  // ---- split_whitespace ----

  /** Rust's `char::is_whitespace`: the Unicode White_Space property. */
  predicate IsWhitespace(ch: char)
  {
    ('\t' <= ch <= '\r') || ch == ' ' || ch == '\U{0085}' || ch == '\U{00A0}' || ch == '\U{1680}'
    || ('\U{2000}' <= ch <= '\U{200A}') || ch == '\U{2028}' || ch == '\U{2029}'
    || ch == '\U{202F}' || ch == '\U{205F}' || ch == '\U{3000}'
  }

  predicate NoWhitespace(s: string)
  {
    forall i :: 0 <= i < |s| ==> !IsWhitespace(s[i])
  }

  /** `s` with its leading whitespace removed; it is a suffix of `s`. */
  function SkipWhitespace(s: string): (r: string)
    ensures |r| <= |s| && r == s[|s| - |r|..]
    ensures forall i :: 0 <= i < |s| - |r| ==> IsWhitespace(s[i])
    ensures r == [] || !IsWhitespace(r[0])
  {
    if s != [] && IsWhitespace(s[0]) then SkipWhitespace(s[1..]) else s
  }

  /** The longest whitespace-free prefix of `s`. */
  function TokenPrefix(s: string): (t: string)
    ensures StartsWith(s, t) && NoWhitespace(t)
    ensures |t| == |s| || IsWhitespace(s[|t|])
  {
    if s == [] || IsWhitespace(s[0]) then [] else [s[0]] + TokenPrefix(s[1..])
  }

  /**
   * `s.split_whitespace().next().unwrap_or_default()`: the first maximal run of
   * non-whitespace characters, or "" when `s` is all whitespace. The token sits
   * at `lead` = the length of the leading whitespace, and is followed by the
   * end of `s` or by whitespace.
   */
  function FirstToken(s: string): (t: string)
    ensures NoWhitespace(t)
    ensures var lead := |s| - |SkipWhitespace(s)|;
      && lead + |t| <= |s|
      && s[lead..lead + |t|] == t
      && (forall i :: 0 <= i < lead ==> IsWhitespace(s[i]))
      && (lead + |t| == |s| || IsWhitespace(s[lead + |t|]))
    ensures t == [] <==> forall i :: 0 <= i < |s| ==> IsWhitespace(s[i])
  {
    var r := SkipWhitespace(s);
    var t := TokenPrefix(r);
    AllWhitespaceIff(s);
    TokenInPlace(s, r, t);
    t
  }

  /** A token at the start of a suffix `r` of `s` sits at the same place in `s`. */
  lemma TokenInPlace(s: string, r: string, t: string)
    requires |r| <= |s| && r == s[|s| - |r|..]
    requires StartsWith(r, t) && (|t| == |r| || IsWhitespace(r[|t|]))
    ensures var lead := |s| - |r|;
      && lead + |t| <= |s|
      && s[lead..lead + |t|] == t
      && (lead + |t| == |s| || IsWhitespace(s[lead + |t|]))
  {
    var lead := |s| - |r|;
    assert s[lead..lead + |t|] == r[..|t|];
    if |t| < |r| {
      assert s[lead + |t|] == r[|t|];
    }
  }

  /** Skipping whitespace leaves nothing exactly when every character is whitespace. */
  lemma AllWhitespaceIff(s: string)
    ensures SkipWhitespace(s) == [] <==> forall i :: 0 <= i < |s| ==> IsWhitespace(s[i])
  {
    var r := SkipWhitespace(s);
    if r != [] {
      assert s[|s| - |r|] == r[0];
    }
  }

  /** A whitespace-free, nonempty `w` followed by nothing or by whitespace is the first token. */
  lemma {:induction false} FirstTokenOf(w: string, rest: string)
    requires w != [] && NoWhitespace(w)
    requires rest == [] || IsWhitespace(rest[0])
    ensures FirstToken(w + rest) == w
  {
    assert SkipWhitespace(w + rest) == w + rest;
    TokenPrefixOf(w, rest);
  }

  lemma {:induction false} TokenPrefixOf(w: string, rest: string)
    requires NoWhitespace(w)
    requires rest == [] || IsWhitespace(rest[0])
    ensures TokenPrefix(w + rest) == w
    decreases |w|
  {
    if w == [] {
      assert w + rest == rest;
    } else {
      assert (w + rest)[1..] == w[1..] + rest;
      TokenPrefixOf(w[1..], rest);
      assert [w[0]] + w[1..] == w;
    }
  }
}
