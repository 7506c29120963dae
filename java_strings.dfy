/**
 * The few operations of java.lang.String that the mailet's configuration
 * parsing relies on: split on a one-character separator (with Java's removal
 * of trailing empty strings), strip, isBlank and toUpperCase.
 */
module JavaStrings {

  /** Character.isWhitespace: the Unicode space, line and paragraph separators
      other than the non-breaking ones, and the ASCII controls \t \n \u000B \f \r
      \u001C-\u001F. */
  predicate IsWhitespace(c: char) {
    || c == ' ' || c == '\t' || c == '\n' || c == '\U{B}' || c == '\U{C}' || c == '\r'
    || ('\U{1C}' <= c <= '\U{1F}')
    || c == '\U{1680}'
    || ('\U{2000}' <= c <= '\U{2006}') || ('\U{2008}' <= c <= '\U{200A}')
    || c == '\U{2028}' || c == '\U{2029}' || c == '\U{205F}' || c == '\U{3000}'
  }

  /** String.isBlank: empty, or white space only. */
  predicate IsBlank(s: string) {
    forall i :: 0 <= i < |s| ==> IsWhitespace(s[i])
  }

  /** The pieces of `s` between occurrences of `sep`, every empty piece kept. */
  function SplitAll(s: string, sep: char): (pieces: seq<string>)
    ensures |pieces| >= 1
    decreases |s|
  {
    if |s| == 0 then [""]
    else
      var rest := SplitAll(s[1..], sep);
      if s[0] == sep then [""] + rest
      else [[s[0]] + rest[0]] + rest[1..]
  }

  /** The pieces written out again with `sep` between neighbours. */
  function Join(pieces: seq<string>, sep: char): string
    requires |pieces| >= 1
    decreases |pieces|
  {
    if |pieces| == 1 then pieces[0] else pieces[0] + [sep] + Join(pieces[1..], sep)
  }

  /** The list without its run of trailing empty strings. */
  function DropTrailingEmpty(xs: seq<string>): (r: seq<string>)
    ensures |r| <= |xs|
    decreases |xs|
  {
    if |xs| > 0 && xs[|xs| - 1] == "" then DropTrailingEmpty(xs[..|xs| - 1]) else xs
  }

  /** String.split with a one-character, non-meta separator and limit 0: the
      string itself when the separator does not occur, otherwise every piece
      with the trailing empty pieces removed (so ":" splits to nothing). */
  function JavaSplit(s: string, sep: char): (pieces: seq<string>)
    ensures forall i :: 0 <= i < |pieces| ==> sep !in pieces[i]
    ensures sep !in s ==> pieces == [s]
  {
    SplitAllPiecesFree(s, sep);
    DropTrailingEmptyShape(SplitAll(s, sep));
    if sep !in s then [s] else DropTrailingEmpty(SplitAll(s, sep))
  }

  /** Drops leading white space. */
  function TrimLeading(s: string): (r: string)
    ensures |r| <= |s|
    decreases |s|
  {
    if |s| > 0 && IsWhitespace(s[0]) then TrimLeading(s[1..]) else s
  }

  /** Drops trailing white space. */
  function TrimTrailing(s: string): (r: string)
    ensures |r| <= |s|
    decreases |s|
  {
    if |s| > 0 && IsWhitespace(s[|s| - 1]) then TrimTrailing(s[..|s| - 1]) else s
  }

  /** String.strip: white space removed from both ends. */
  function Strip(s: string): (r: string)
    ensures |r| <= |s|
    ensures r != "" ==> !IsWhitespace(r[0]) && !IsWhitespace(r[|r| - 1])
  {
    TrimLeadingShape(s);
    TrimTrailingShape(TrimLeading(s));
    TrimTrailing(TrimLeading(s))
  }

  /** The upper case of one character, for the characters whose upper case is
      a single ASCII letter; every other character is kept. String.toUpperCase
      follows the JVM's default locale; this is its result in a locale without
      Turkic casing rules, where `i` becomes `I` (a Turkish or Azerbaijani
      default would give a dotted capital instead). */
  function UpperChar(c: char): char {
    if 'a' <= c <= 'z' then (c as int - 32) as char
    else if c == '\U{131}' then 'I'   // dotless i
    else if c == '\U{17F}' then 'S'   // long s
    else c
  }

  /** String.toUpperCase, character by character (see UpperChar). */
  function UpperCase(s: string): (r: string)
    ensures |r| == |s| && forall i :: 0 <= i < |s| ==> r[i] == UpperChar(s[i])
  {
    seq(|s|, i requires 0 <= i < |s| => UpperChar(s[i]))
  }

  /** The lower case of an ASCII letter; every other character is kept. */
  function LowerChar(c: char): char {
    if 'A' <= c <= 'Z' then (c as int + 32) as char else c
  }

  /** String.equalsIgnoreCase restricted to ASCII letters. */
  predicate EqualsIgnoreCase(a: string, b: string) {
    |a| == |b| && forall i :: 0 <= i < |a| ==> LowerChar(a[i]) == LowerChar(b[i])
  }

  // ---------------------------------------------------------------------------
  // Splitting and joining

  /** No piece holds the separator. */
  lemma {:induction false} SplitAllPiecesFree(s: string, sep: char)
    ensures forall i :: 0 <= i < |SplitAll(s, sep)| ==> sep !in SplitAll(s, sep)[i]
    decreases |s|
  {
    if |s| > 0 {
      SplitAllPiecesFree(s[1..], sep);
      var rest := SplitAll(s[1..], sep);
      if s[0] != sep {
        assert sep !in rest[0];
        assert sep !in [s[0]] + rest[0];
      }
    }
  }

  /** What Java's split drops: a suffix of empty pieces, and no more. */
  lemma {:induction false} DropTrailingEmptyShape(xs: seq<string>)
    ensures DropTrailingEmpty(xs) == xs[..|DropTrailingEmpty(xs)|]
    ensures forall i :: |DropTrailingEmpty(xs)| <= i < |xs| ==> xs[i] == ""
    ensures DropTrailingEmpty(xs) == [] || DropTrailingEmpty(xs)[|DropTrailingEmpty(xs)| - 1] != ""
    decreases |xs|
  {
    if |xs| > 0 && xs[|xs| - 1] == "" {
      DropTrailingEmptyShape(xs[..|xs| - 1]);
    }
  }

  /** A string without the separator is one piece. */
  lemma {:induction false} SplitAllNoSeparator(s: string, sep: char)
    requires sep !in s
    ensures SplitAll(s, sep) == [s]
    decreases |s|
  {
    if |s| > 0 {
      SplitAllNoSeparator(s[1..], sep);
      assert [s[0]] + s[1..] == s;
    }
  }

  /** A separator-free prefix glues onto the first piece of what follows. */
  lemma {:induction false} SplitAllPrefix(p: string, t: string, sep: char)
    requires sep !in p
    ensures SplitAll(p + t, sep) == [p + SplitAll(t, sep)[0]] + SplitAll(t, sep)[1..]
    decreases |p|
  {
    if |p| > 0 {
      SplitAllPrefix(p[1..], t, sep);
      assert (p + t)[1..] == p[1..] + t;
      assert [p[0]] + (p[1..] + SplitAll(t, sep)[0]) == p + SplitAll(t, sep)[0];
    } else {
      assert p == [];
      assert p + t == t;
      assert p + SplitAll(t, sep)[0] == SplitAll(t, sep)[0];
      assert [SplitAll(t, sep)[0]] + SplitAll(t, sep)[1..] == SplitAll(t, sep);
    }
  }

  /** Joining the pieces of a split gives the string back. */
  lemma {:induction false} JoinSplitAll(s: string, sep: char)
    ensures Join(SplitAll(s, sep), sep) == s
    decreases |s|
  {
    if |s| > 0 {
      JoinSplitAll(s[1..], sep);
      var rest := SplitAll(s[1..], sep);
      if s[0] == sep {
        assert ([""] + rest)[1..] == rest;
      } else {
        var pieces := [[s[0]] + rest[0]] + rest[1..];
        assert pieces[1..] == rest[1..];
        if |rest| == 1 {
          assert [s[0]] + rest[0] == s;
        } else {
          assert Join(rest, sep) == rest[0] + [sep] + Join(rest[1..], sep);
          assert [s[0]] + Join(rest, sep) == s;
        }
      }
    }
  }

  /** Splitting joined separator-free pieces gives the pieces back. */
  lemma {:induction false} SplitAllJoin(pieces: seq<string>, sep: char)
    requires |pieces| >= 1
    requires forall i :: 0 <= i < |pieces| ==> sep !in pieces[i]
    ensures SplitAll(Join(pieces, sep), sep) == pieces
    decreases |pieces|
  {
    if |pieces| == 1 {
      SplitAllNoSeparator(pieces[0], sep);
    } else {
      var tail := Join(pieces[1..], sep);
      SplitAllJoin(pieces[1..], sep);
      var t := [sep] + tail;
      assert t[1..] == tail;
      assert SplitAll(t, sep) == [""] + pieces[1..];
      assert pieces[0] + [sep] + tail == pieces[0] + t;
      SplitAllPrefix(pieces[0], t, sep);
      assert pieces[0] + "" == pieces[0];
      assert [pieces[0]] + pieces[1..] == pieces;
    }
  }

  /** Joining distributes over concatenation of the piece lists. */
  lemma {:induction false} JoinAppend(xs: seq<string>, ys: seq<string>, sep: char)
    requires |xs| >= 1 && |ys| >= 1
    ensures Join(xs + ys, sep) == Join(xs, sep) + [sep] + Join(ys, sep)
    decreases |xs|
  {
    if |xs| == 1 {
      assert (xs + ys)[1..] == ys;
    } else {
      JoinAppend(xs[1..], ys, sep);
      assert (xs + ys)[1..] == xs[1..] + ys;
    }
  }

  /** Splitting `a`, a separator and `b` splits `a` and `b` on their own. */
  lemma SplitAllAppend(a: string, b: string, sep: char)
    ensures SplitAll(a + [sep] + b, sep) == SplitAll(a, sep) + SplitAll(b, sep)
  {
    var xs, ys := SplitAll(a, sep), SplitAll(b, sep);
    JoinSplitAll(a, sep);
    JoinSplitAll(b, sep);
    JoinAppend(xs, ys, sep);
    SplitAllPiecesFree(a, sep);
    SplitAllPiecesFree(b, sep);
    SplitAllJoin(xs + ys, sep);
  }

  /** Java's split returns separator-free pieces whose join is the string,
      once its dropped trailing empty pieces are put back. */
  lemma JavaSplitPieces(s: string, sep: char)
    ensures forall i :: 0 <= i < |JavaSplit(s, sep)| ==> sep !in JavaSplit(s, sep)[i]
    ensures |JavaSplit(s, sep)| <= |SplitAll(s, sep)|
    ensures JavaSplit(s, sep) == SplitAll(s, sep)[..|JavaSplit(s, sep)|]
  {
    SplitAllPiecesFree(s, sep);
    DropTrailingEmptyShape(SplitAll(s, sep));
    if sep !in s {
      SplitAllNoSeparator(s, sep);
    }
  }

  /** Splitting joined fields with Java's split gives the fields back, when no
      field is empty and none holds the separator. */
  lemma JavaSplitJoin(fields: seq<string>, sep: char)
    requires |fields| >= 1
    requires forall i :: 0 <= i < |fields| ==> fields[i] != "" && sep !in fields[i]
    ensures JavaSplit(Join(fields, sep), sep) == fields
  {
    if |fields| == 1 {
    } else {
      var s := Join(fields, sep);
      assert s[|fields[0]|] == sep;
      SplitAllJoin(fields, sep);
    }
  }

  /** A string consisting of separators only splits to nothing, and nothing
      else does (Java's split keeps a piece when one is not empty). */
  lemma JavaSplitEmptyIffOnlySeparators(s: string, sep: char)
    ensures JavaSplit(s, sep) == [] <==> (s != "" && forall i :: 0 <= i < |s| ==> s[i] == sep)
  {
    var pieces := SplitAll(s, sep);
    DropTrailingEmptyShape(pieces);
    if s != "" && forall i :: 0 <= i < |s| ==> s[i] == sep {
      assert s[0] == sep;
      forall k | 0 <= k < |pieces| ensures pieces[k] == "" {
        PieceCharsOccur(s, sep, k);
      }
    }
    if JavaSplit(s, sep) == [] {
      assert sep in s;
      forall i | 0 <= i < |s| ensures s[i] == sep {
        JoinSplitAll(s, sep);
        JoinOfEmptyPieces(pieces, sep, i);
      }
    }
  }

  /** Every character of a piece occurs in the split string, so a string made
      of separators only has empty pieces. */
  lemma PieceCharsOccur(s: string, sep: char, k: nat)
    requires k < |SplitAll(s, sep)|
    requires forall i :: 0 <= i < |s| ==> s[i] == sep
    ensures SplitAll(s, sep)[k] == ""
  {
    var p := SplitAll(s, sep)[k];
    if p != "" {
      SplitAllPiecesFree(s, sep);
      JoinSplitAll(s, sep);
      CharOfPieceInJoin(SplitAll(s, sep), sep, k, 0);
      assert false;
    }
  }

  /** A character of one piece is a character of the joined string. */
  lemma {:induction false} CharOfPieceInJoin(pieces: seq<string>, sep: char, k: nat, j: nat)
    requires |pieces| >= 1 && k < |pieces| && j < |pieces[k]|
    ensures pieces[k][j] in Join(pieces, sep)
    decreases |pieces|
  {
    if |pieces| > 1 {
      if k == 0 {
        assert Join(pieces, sep)[j] == pieces[0][j];
      } else {
        CharOfPieceInJoin(pieces[1..], sep, k - 1, j);
        var rest := Join(pieces[1..], sep);
        var c := pieces[k][j];
        var m :| 0 <= m < |rest| && rest[m] == c;
        assert Join(pieces, sep)[|pieces[0]| + 1 + m] == c;
      }
    }
  }

  /** When every piece is empty the joined string holds separators only. */
  lemma {:induction false} JoinOfEmptyPieces(pieces: seq<string>, sep: char, i: nat)
    requires |pieces| >= 1 && forall k :: 0 <= k < |pieces| ==> pieces[k] == ""
    requires i < |Join(pieces, sep)|
    ensures Join(pieces, sep)[i] == sep
    decreases |pieces|
  {
    if |pieces| > 1 {
      if i > 0 {
        JoinOfEmptyPieces(pieces[1..], sep, i - 1);
      }
    }
  }

  // ---------------------------------------------------------------------------
  // Strip and isBlank

  /** TrimLeading keeps a suffix and drops white space only, up to a
      character that is not white space. */
  lemma {:induction false} TrimLeadingShape(s: string)
    ensures TrimLeading(s) == s[|s| - |TrimLeading(s)|..]
    ensures forall k :: 0 <= k < |s| - |TrimLeading(s)| ==> IsWhitespace(s[k])
    ensures TrimLeading(s) != [] ==> !IsWhitespace(TrimLeading(s)[0])
    decreases |s|
  {
    if |s| > 0 && IsWhitespace(s[0]) {
      TrimLeadingShape(s[1..]);
    }
  }

  /** TrimTrailing keeps a prefix and drops white space only, back to a
      character that is not white space. */
  lemma {:induction false} TrimTrailingShape(s: string)
    ensures TrimTrailing(s) == s[..|TrimTrailing(s)|]
    ensures forall k :: |TrimTrailing(s)| <= k < |s| ==> IsWhitespace(s[k])
    ensures TrimTrailing(s) != [] ==> !IsWhitespace(TrimTrailing(s)[|TrimTrailing(s)| - 1])
    decreases |s|
  {
    if |s| > 0 && IsWhitespace(s[|s| - 1]) {
      TrimTrailingShape(s[..|s| - 1]);
    }
  }

  /** A stripped string is empty exactly when the original was blank. */
  lemma StripEmptyIffBlank(s: string)
    ensures Strip(s) == "" <==> IsBlank(s)
  {
    var t := TrimLeading(s);
    TrimLeadingShape(s);
    TrimTrailingShape(t);
    if t != "" {
      assert !IsWhitespace(s[|s| - |t|]);
    }
  }

  /** After strip, blank means empty. */
  lemma StrippedBlankIffEmpty(s: string)
    ensures IsBlank(Strip(s)) <==> Strip(s) == ""
  {
    var r := Strip(s);
    TrimLeadingShape(s);
    TrimTrailingShape(TrimLeading(s));
    if r != "" {
      assert !IsWhitespace(r[0]);
    }
  }

  /** Stripping twice strips nothing more. */
  lemma StripIdempotent(s: string)
    ensures Strip(Strip(s)) == Strip(s)
  {
    var r := Strip(s);
    TrimLeadingShape(s);
    TrimTrailingShape(TrimLeading(s));
    if r != "" {
      assert TrimLeading(r) == r;
      assert TrimTrailing(r) == r;
    }
  }
}
