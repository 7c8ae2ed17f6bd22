/** The two string operations of the page's controller: `trim` on the name
    typed into a row, and `split("-")` on a row id. */
module Strings {

  const Dash: char := '-'

  /** The characters `String.prototype.trim` removes: the ECMAScript
      WhiteSpace characters (tab, vertical tab, form feed, space, no-break
      space, the byte order mark and the Unicode space separators) and the
      LineTerminator characters. */
  predicate IsSpace(c: char) {
    || c == '\t' || c == '\U{B}' || c == '\U{C}' || c == ' ' || c == '\U{A0}'
    || c == '\U{FEFF}' || c == '\U{1680}' || '\U{2000}' <= c <= '\U{200A}'
    || c == '\U{202F}' || c == '\U{205F}' || c == '\U{3000}'
    || c == '\n' || c == '\r' || c == '\U{2028}' || c == '\U{2029}'
  }

  /** Drops the leading white space: what is left is a suffix of `s` that does
      not start with white space, and everything dropped was white space. */
  function TrimStart(s: string): (r: string)
    ensures |r| <= |s| && r == s[|s| - |r|..]
    ensures forall k :: 0 <= k < |s| - |r| ==> IsSpace(s[k])
    ensures r != [] ==> !IsSpace(r[0])
  {
    if s != [] && IsSpace(s[0]) then TrimStart(s[1..]) else s
  }

  /** Drops the trailing white space: what is left is a prefix of `s` that
      does not end with white space, and everything dropped was white space. */
  function TrimEnd(s: string): (r: string)
    ensures |r| <= |s| && r == s[..|r|]
    ensures forall k :: |r| <= k < |s| ==> IsSpace(s[k])
    ensures r != [] ==> !IsSpace(r[|r| - 1])
  {
    if s != [] && IsSpace(s[|s| - 1]) then TrimEnd(s[..|s| - 1]) else s
  }

  /** `s.trim()`. */
  function Trim(s: string): string {
    TrimEnd(TrimStart(s))
  }

  /** Trimming the end of a suffix of `s` leaves a slice of `s` followed by
      white space only. */
  lemma TrimEndOfSuffix(s: string, a: nat)
    requires a <= |s|
    ensures var r := TrimEnd(s[a..]);
      && a + |r| <= |s| && r == s[a..a + |r|]
      && forall k :: a + |r| <= k < |s| ==> IsSpace(s[k])
  {
    var t := s[a..];
    var r := TrimEnd(t);
    forall k | a + |r| <= k < |s| ensures IsSpace(s[k]) {
      assert s[k] == t[k - a];
    }
  }

  /** The trimmed string is the slice of `s` between a run of leading and a
      run of trailing white space. */
  lemma TrimIsInnerSlice(s: string)
    ensures var a := |s| - |TrimStart(s)|;
      && a + |Trim(s)| <= |s|
      && Trim(s) == s[a..a + |Trim(s)|]
      && (forall k :: 0 <= k < a ==> IsSpace(s[k]))
      && (forall k :: a + |Trim(s)| <= k < |s| ==> IsSpace(s[k]))
  {
    var t := TrimStart(s);
    assert t == s[|s| - |t|..];
    TrimEndOfSuffix(s, |s| - |t|);
  }

  /** The trimmed string neither starts nor ends with white space. */
  lemma TrimHasNoOuterSpace(s: string)
    ensures Trim(s) != [] ==> !IsSpace(Trim(s)[0]) && !IsSpace(Trim(s)[|Trim(s)| - 1])
  {
    var t := TrimStart(s);
    var r := TrimEnd(t);
    if r != [] {
      assert r[0] == t[0];
    }
  }

  /** The trimmed string is empty exactly when `s` is all white space. */
  lemma TrimEmptyIff(s: string)
    ensures Trim(s) == "" <==> forall k :: 0 <= k < |s| ==> IsSpace(s[k])
  {
    TrimIsInnerSlice(s);
    if Trim(s) != "" {
      var a := |s| - |TrimStart(s)|;
      assert s[a] == Trim(s)[0];
    }
  }

  /** Trimming twice is trimming once. */
  lemma TrimIdempotent(s: string)
    ensures Trim(Trim(s)) == Trim(s)
  {
    var r := Trim(s);
    TrimIsInnerSlice(s);
    if r != [] {
      assert TrimStart(r) == r;
      assert TrimEnd(r) == r;
    }
  }

  /** `s.split("-")` for the one-character separator: the pieces between the
      dashes, in order. A string without a dash is one piece, the empty string
      is one empty piece, and no piece contains a dash. */
  function Split(s: string): (parts: seq<string>)
    ensures |parts| >= 1
    ensures forall k :: 0 <= k < |parts| ==> Dash !in parts[k]
  {
    if s == [] then [""]
    else
      var rest := Split(s[1..]);
      if s[0] == Dash then [""] + rest
      else [[s[0]] + rest[0]] + rest[1..]
  }

  /** `parts.join("-")`. */
  function Join(parts: seq<string>): string
    requires |parts| >= 1
  {
    if |parts| == 1 then parts[0] else parts[0] + [Dash] + Join(parts[1..])
  }

  /** Splitting loses nothing: joining the pieces with dashes gives back the
      string. */
  lemma {:induction false} JoinSplit(s: string)
    ensures Join(Split(s)) == s
  {
    if s != [] {
      var rest := Split(s[1..]);
      JoinSplit(s[1..]);
      if s[0] == Dash {
        assert Split(s) == [""] + rest;
        assert Split(s)[1..] == rest;
      } else {
        var parts := Split(s);
        assert parts == [[s[0]] + rest[0]] + rest[1..];
        if |rest| == 1 {
          assert Join(parts) == [s[0]] + rest[0];
        } else {
          assert parts[1..] == rest[1..];
          calc {
            Join(parts);
            ([s[0]] + rest[0]) + [Dash] + Join(rest[1..]);
            [s[0]] + (rest[0] + [Dash] + Join(rest[1..]));
            [s[0]] + Join(rest);
          }
        }
        assert s == [s[0]] + s[1..];
      }
    }
  }

  /** A string without a dash splits into itself alone. */
  lemma {:induction false} SplitNoDash(s: string)
    requires Dash !in s
    ensures Split(s) == [s]
  {
    if s != [] {
      SplitNoDash(s[1..]);
      assert s == [s[0]] + s[1..];
    }
  }

  /** A dash-free word followed by a dash splits into that word and the
      pieces of what follows. */
  lemma {:induction false} SplitAfterWord(w: string, rest: string)
    requires Dash !in w
    ensures Split(w + [Dash] + rest) == [w] + Split(rest)
  {
    if w == [] {
      assert w + [Dash] + rest == [Dash] + rest;
      assert ([Dash] + rest)[1..] == rest;
    } else {
      var s := w + [Dash] + rest;
      assert s[1..] == w[1..] + [Dash] + rest;
      SplitAfterWord(w[1..], rest);
      assert [w[0]] + w[1..] == w;
    }
  }

  /** The first piece of a split gives back the whole string exactly when the
      string holds no dash. */
  lemma FirstPieceIsWholeIff(s: string)
    ensures Split(s)[0] == s <==> Dash !in s
  {
    if Dash !in s {
      SplitNoDash(s);
    }
  }
}
