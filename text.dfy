/**
 * The string operations the capture routine relies on, modelled on
 * `seq<char>`: `str.split` on one separator, `list.remove`, `str.find`,
 * `str.startswith`, the ASCII filter of `encode('ascii', errors='ignore')`,
 * `str.replace(',', '')` and the whitespace trim done by `float()`.
 */
module Text {
  import opened Wrappers

  /** `s.startswith(prefix)` */
  predicate StartsWith(s: string, prefix: string) {
    |prefix| <= |s| && s[..|prefix|] == prefix
  }

  // ---------------------------------------------------------------------
  // str.split(sep) and its inverse, str.join

  /** `s.split(sep)` for a one-character separator: always at least one piece. */
  function Split(s: string, sep: char): (r: seq<string>)
    ensures |r| >= 1
  {
    if |s| == 0 then [""]
    else if s[0] == sep then [""] + Split(s[1..], sep)
    else
      var rest := Split(s[1..], sep);
      [[s[0]] + rest[0]] + rest[1..]
  }

  /** `sep.join(pieces)` */
  function Join(pieces: seq<string>, sep: char): string
    requires |pieces| >= 1
  {
    if |pieces| == 1 then pieces[0]
    else pieces[0] + [sep] + Join(pieces[1..], sep)
  }

  /** Number of occurrences of `c` in `s`. */
  function Count(s: string, c: char): nat {
    if |s| == 0 then 0 else (if s[0] == c then 1 else 0) + Count(s[1..], c)
  }

  /** No piece of a split holds the separator, and there is one piece more than separators. */
  lemma {:induction false} SplitPieces(s: string, sep: char)
    ensures forall i :: 0 <= i < |Split(s, sep)| ==> sep !in Split(s, sep)[i]
    ensures |Split(s, sep)| == Count(s, sep) + 1
  {
    if |s| > 0 {
      SplitPieces(s[1..], sep);
    }
  }

  /** Prefixing a character to the first piece prefixes it to the join. */
  lemma JoinPrefixFirst(c: char, pieces: seq<string>, sep: char)
    requires |pieces| >= 1
    ensures Join([[c] + pieces[0]] + pieces[1..], sep) == [c] + Join(pieces, sep)
  {
    var r := [[c] + pieces[0]] + pieces[1..];
    if |pieces| > 1 {
      assert r[1..] == pieces[1..];
      assert Join(r, sep) == ([c] + pieces[0]) + [sep] + Join(pieces[1..], sep);
    }
  }

  /** Joining the pieces of a split gives the text back. */
  lemma {:induction false} JoinSplit(s: string, sep: char)
    ensures Join(Split(s, sep), sep) == s
  {
    if |s| > 0 {
      JoinSplit(s[1..], sep);
      assert s == [s[0]] + s[1..];
      if s[0] != sep {
        JoinPrefixFirst(s[0], Split(s[1..], sep), sep);
      }
    }
  }

  /** A text without the separator is a single piece. */
  lemma {:induction false} SplitNoSep(a: string, sep: char)
    requires sep !in a
    ensures Split(a, sep) == [a]
  {
    if |a| > 0 {
      SplitNoSep(a[1..], sep);
      assert [a[0]] + a[1..] == a;
    }
  }

  /** Splitting at a separator that follows a separator-free prefix. */
  lemma {:induction false} SplitCons(a: string, sep: char, b: string)
    requires sep !in a
    ensures Split(a + [sep] + b, sep) == [a] + Split(b, sep)
  {
    if |a| == 0 {
      assert a + [sep] + b == [sep] + b;
      assert ([sep] + b)[1..] == b;
    } else {
      var s := a + [sep] + b;
      assert s[0] == a[0] && s[1..] == a[1..] + [sep] + b;
      SplitCons(a[1..], sep, b);
      assert [a[0]] + a[1..] == a;
    }
  }

  /** Splitting a join of separator-free pieces gives the pieces back. */
  lemma {:induction false} SplitJoin(pieces: seq<string>, sep: char)
    requires |pieces| >= 1
    requires forall i :: 0 <= i < |pieces| ==> sep !in pieces[i]
    ensures Split(Join(pieces, sep), sep) == pieces
  {
    if |pieces| == 1 {
      SplitNoSep(pieces[0], sep);
    } else {
      SplitJoin(pieces[1..], sep);
      SplitCons(pieces[0], sep, Join(pieces[1..], sep));
      assert [pieces[0]] + pieces[1..] == pieces;
    }
  }

  /** Two separators in a row somewhere in `s`, or `s` ends with one. */
  predicate BlankAfterFirst(s: string, sep: char) {
    (|s| > 0 && s[|s| - 1] == sep) || exists i :: 0 <= i < |s| - 1 && s[i] == sep && s[i + 1] == sep
  }

  /**
   * Which texts split into an empty piece: the empty text, a text that
   * starts or ends with the separator, or one with two separators in a row.
   */
  lemma {:induction false} EmptyPieceIff(s: string, sep: char)
    ensures "" in Split(s, sep)[1..] <==> BlankAfterFirst(s, sep)
    ensures "" in Split(s, sep) <==> |s| == 0 || s[0] == sep || BlankAfterFirst(s, sep)
  {
    if |s| == 0 {
    } else {
      var t := s[1..];
      EmptyPieceIff(t, sep);
      var rest := Split(t, sep);
      if s[0] == sep {
        assert Split(s, sep)[1..] == rest;
        if |t| == 0 {
          assert BlankAfterFirst(s, sep);
        } else if t[0] == sep {
          assert s[0] == sep && s[1] == sep;
          assert BlankAfterFirst(s, sep);
        } else if BlankAfterFirst(t, sep) {
          if t[|t| - 1] != sep {
            var i :| 0 <= i < |t| - 1 && t[i] == sep && t[i + 1] == sep;
            assert s[i + 1] == sep && s[i + 2] == sep;
          }
        } else {
          assert !BlankAfterFirst(s, sep) by {
            forall i | 0 <= i < |s| - 1 && s[i] == sep ensures s[i + 1] != sep {
              if i > 0 { assert t[i - 1] == sep; }
            }
          }
        }
      } else {
        assert Split(s, sep)[1..] == rest[1..];
        assert Split(s, sep)[0] != "";
        assert BlankAfterFirst(s, sep) <==> BlankAfterFirst(t, sep) by {
          if BlankAfterFirst(t, sep) {
            if t[|t| - 1] != sep {
              var i :| 0 <= i < |t| - 1 && t[i] == sep && t[i + 1] == sep;
              assert s[i + 1] == sep && s[i + 2] == sep;
            }
          }
          if BlankAfterFirst(s, sep) {
            if s[|s| - 1] != sep {
              var i :| 0 <= i < |s| - 1 && s[i] == sep && s[i + 1] == sep;
              assert i > 0;
              assert t[i - 1] == sep && t[i] == sep;
            }
          }
        }
        assert "" in rest <==> "" == rest[0] || "" in rest[1..] by {
          assert rest == [rest[0]] + rest[1..];
        }
      }
    }
  }

  // ---------------------------------------------------------------------
  // list.index / str.find and list.remove

  /** Index of the first occurrence of `x`: `xs.index(x)`, or `s.find(c)` when `c` occurs. */
  function IndexOf<T(==)>(xs: seq<T>, x: T): (i: nat)
    requires x in xs
    ensures i < |xs| && xs[i] == x
  {
    if xs[0] == x then 0 else 1 + IndexOf(xs[1..], x)
  }

  /** No occurrence comes before the one `IndexOf` finds. */
  lemma {:induction false} IndexOfFirst<T>(xs: seq<T>, x: T)
    requires x in xs
    ensures x !in xs[..IndexOf(xs, x)]
  {
    if xs[0] != x {
      IndexOfFirst(xs[1..], x);
      assert xs[..IndexOf(xs, x)] == [xs[0]] + xs[1..][..IndexOf(xs[1..], x)];
    }
  }

  /** The first occurrence is determined by being an occurrence with none before it. */
  lemma {:induction false} IndexOfAt<T>(xs: seq<T>, x: T, k: nat)
    requires k < |xs| && xs[k] == x && x !in xs[..k]
    ensures IndexOf(xs, x) == k
  {
    if k > 0 {
      assert xs[0] != x by { assert xs[..k][0] == xs[0]; }
      assert x !in xs[1..][..k - 1] by {
        forall j | 0 <= j < k - 1 ensures xs[1..][j] != x { assert xs[1..][j] == xs[..k][j + 1]; }
      }
      IndexOfAt(xs[1..], x, k - 1);
    }
  }

  /**
   * `xs.remove(x)`: removes the first occurrence only; `None` stands for the
   * `ValueError` Python raises when `x` is absent.
   */
  function RemoveFirst<T(==)>(xs: seq<T>, x: T): Option<seq<T>> {
    if |xs| == 0 then None
    else if xs[0] == x then Some(xs[1..])
    else
      match RemoveFirst(xs[1..], x)
      case None => None
      case Some(t) => Some([xs[0]] + t)
  }

  /** `remove` fails exactly when `x` is absent, and otherwise cuts out the first occurrence. */
  lemma {:induction false} RemoveFirstSpec<T>(xs: seq<T>, x: T)
    ensures RemoveFirst(xs, x).None? <==> x !in xs
    ensures RemoveFirst(xs, x).Some? ==>
      RemoveFirst(xs, x).value == xs[..IndexOf(xs, x)] + xs[IndexOf(xs, x) + 1..]
  {
    if |xs| > 0 && xs[0] != x {
      RemoveFirstSpec(xs[1..], x);
      if x in xs {
        assert xs[..IndexOf(xs, x)] == [xs[0]] + xs[1..][..IndexOf(xs[1..], x)];
      }
    }
  }

  /** Removing one occurrence takes exactly one copy of `x` out of the multiset. */
  lemma {:induction false} RemoveFirstMultiset<T>(xs: seq<T>, x: T)
    requires x in xs
    ensures RemoveFirst(xs, x).Some?
    ensures |RemoveFirst(xs, x).value| == |xs| - 1
    ensures multiset(RemoveFirst(xs, x).value) == multiset(xs) - multiset{x}
  {
    assert xs == [xs[0]] + xs[1..];
    if xs[0] != x {
      RemoveFirstMultiset(xs[1..], x);
    }
  }

  // ---------------------------------------------------------------------
  // encode('ascii', errors='ignore')

  predicate IsAscii(c: char) { c as int < 128 }

  /** Drops every character outside ASCII, keeping the rest in order. */
  function AsciiOnly(s: string): string {
    if |s| == 0 then ""
    else (if IsAscii(s[0]) then [s[0]] else "") + AsciiOnly(s[1..])
  }

  /** What is kept is ASCII and comes from the text; nothing is added. */
  lemma {:induction false} AsciiOnlySpec(s: string)
    ensures forall c :: c in AsciiOnly(s) ==> IsAscii(c) && c in s
    ensures |AsciiOnly(s)| <= |s|
  {
    if |s| > 0 {
      AsciiOnlySpec(s[1..]);
    }
  }

  /** An all-ASCII text passes unchanged, so the filter is idempotent. */
  lemma {:induction false} AsciiOnlyKeepsAscii(s: string)
    requires forall c :: c in s ==> IsAscii(c)
    ensures AsciiOnly(s) == s
  {
    if |s| > 0 {
      AsciiOnlyKeepsAscii(s[1..]);
      assert [s[0]] + s[1..] == s;
    }
  }

  /** The filter works character by character. */
  lemma {:induction false} AsciiOnlyAppend(a: string, b: string)
    ensures AsciiOnly(a + b) == AsciiOnly(a) + AsciiOnly(b)
  {
    if |a| > 0 {
      AsciiOnlyAppend(a[1..], b);
      assert (a + b)[1..] == a[1..] + b;
    } else {
      assert a + b == b;
    }
  }

  // ---------------------------------------------------------------------
  // str.replace(',', '')

  /** `s.replace(',', '')` */
  function StripCommas(s: string): string {
    if |s| == 0 then ""
    else (if s[0] == ',' then "" else [s[0]]) + StripCommas(s[1..])
  }

  /** No comma is left, and every character kept comes from the text. */
  lemma {:induction false} StripCommasSpec(s: string)
    ensures ',' !in StripCommas(s)
    ensures forall c :: c in StripCommas(s) ==> c in s
    ensures |StripCommas(s)| <= |s|
  {
    if |s| > 0 {
      StripCommasSpec(s[1..]);
    }
  }

  lemma {:induction false} StripCommasAppend(a: string, b: string)
    ensures StripCommas(a + b) == StripCommas(a) + StripCommas(b)
  {
    if |a| > 0 {
      StripCommasAppend(a[1..], b);
      assert (a + b)[1..] == a[1..] + b;
    } else {
      assert a + b == b;
    }
  }

  /** A comma anywhere in the text is ignored. */
  lemma CommaIgnored(a: string, b: string)
    ensures StripCommas(a + "," + b) == StripCommas(a + b)
  {
    StripCommasAppend(a + ",", b);
    StripCommasAppend(a, ",");
    StripCommasAppend(a, b);
  }

  /** A text without commas is left as it is. */
  lemma {:induction false} StripCommasNoComma(s: string)
    requires ',' !in s
    ensures StripCommas(s) == s
  {
    if |s| > 0 {
      StripCommasNoComma(s[1..]);
      assert [s[0]] + s[1..] == s;
    }
  }

  // ---------------------------------------------------------------------
  // The whitespace `float()` ignores around its argument

  /**
   * The characters Python 2's `unicode.isspace()` accepts: the ASCII
   * whitespace, the separators U+001C to U+001F, NEL, no-break space and the
   * Unicode space separators. `float()` of a `unicode` argument maps each of
   * them to a blank before it skips the blanks around the number.
   */
  predicate IsSpace(c: char) {
    || c == ' ' || '\t' <= c <= '\r' || '\U{001C}' <= c <= '\U{001F}'
    || c == '\U{0085}' || c == '\U{00A0}' || c == '\U{1680}' || c == '\U{180E}'
    || '\U{2000}' <= c <= '\U{200A}' || c == '\U{2028}' || c == '\U{2029}'
    || c == '\U{202F}' || c == '\U{205F}' || c == '\U{3000}'
  }

  /** `s.lstrip()`: what is left after the leading whitespace. */
  function TrimStart(s: string): string {
    if |s| > 0 && IsSpace(s[0]) then TrimStart(s[1..]) else s
  }

  /** `s.rstrip()`: what is left before the trailing whitespace. */
  function TrimEnd(s: string): string {
    if |s| > 0 && IsSpace(s[|s| - 1]) then TrimEnd(s[..|s| - 1]) else s
  }

  /** `lstrip` keeps a suffix that does not start with whitespace, and what it drops is all whitespace. */
  lemma {:induction false} TrimStartSuffix(s: string)
    ensures |TrimStart(s)| <= |s| && TrimStart(s) == s[|s| - |TrimStart(s)|..]
    ensures |TrimStart(s)| > 0 ==> !IsSpace(TrimStart(s)[0])
    ensures forall j :: 0 <= j < |s| - |TrimStart(s)| ==> IsSpace(s[j])
  {
    if |s| > 0 && IsSpace(s[0]) {
      var t := s[1..];
      TrimStartSuffix(t);
      assert TrimStart(s) == TrimStart(t);
      forall j | 0 <= j < |s| - |TrimStart(s)| ensures IsSpace(s[j]) {
        if j > 0 { assert s[j] == t[j - 1]; }
      }
    }
  }

  /** `rstrip` keeps a prefix that does not end with whitespace, and what it drops is all whitespace. */
  lemma {:induction false} TrimEndPrefix(s: string)
    ensures |TrimEnd(s)| <= |s| && TrimEnd(s) == s[..|TrimEnd(s)|]
    ensures |TrimEnd(s)| > 0 ==> !IsSpace(TrimEnd(s)[|TrimEnd(s)| - 1])
    ensures forall j :: |TrimEnd(s)| <= j < |s| ==> IsSpace(s[j])
  {
    if |s| > 0 && IsSpace(s[|s| - 1]) {
      var t := s[..|s| - 1];
      TrimEndPrefix(t);
      assert TrimEnd(s) == TrimEnd(t);
      forall j | |TrimEnd(s)| <= j < |s| ensures IsSpace(s[j]) {
        if j < |t| { assert s[j] == t[j]; }
      }
    }
  }

  /** `s.strip()`: the text less the whitespace at both ends. */
  function Trim(s: string): string {
    TrimEnd(TrimStart(s))
  }

  /** A text that neither starts nor ends with whitespace is its own trim. */
  lemma TrimUntouched(s: string)
    requires |s| > 0 ==> !IsSpace(s[0]) && !IsSpace(s[|s| - 1])
    ensures Trim(s) == s
  {
  }
}
