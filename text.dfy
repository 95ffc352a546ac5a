/** String rules shared by the fetchers and the poster: Python's notion of
    whitespace, the footnote-marker substitution, the whitespace collapse,
    `str.join`, `str.split` and the decimal rendering of an integer. */
module Text {

  /** Python's `str.isspace()`: the characters that `\s` matches in a `str`
      pattern of `re` and that `str.strip()` removes. */
  predicate IsSpace(c: char)
  {
    c in SpaceChars
  }

  const SpaceChars: set<char> := {
    '\t', '\n', '\U{B}', '\U{C}', '\r', '\U{1C}', '\U{1D}', '\U{1E}', '\U{1F}', ' ',
    '\U{85}', '\U{A0}', '\U{1680}', '\U{2000}', '\U{2001}', '\U{2002}', '\U{2003}',
    '\U{2004}', '\U{2005}', '\U{2006}', '\U{2007}', '\U{2008}', '\U{2009}', '\U{200A}',
    '\U{2028}', '\U{2029}', '\U{202F}', '\U{205F}', '\U{3000}'}

  /** `not s or s.strip() == ""`: the string is empty or holds whitespace only. */
  predicate IsBlank(s: string)
  {
    forall i | 0 <= i < |s| :: IsSpace(s[i])
  }

  /** The class `[a-zA-Z]`, without the IGNORECASE flag. */
  predicate IsAsciiLetter(c: char)
  {
    'a' <= c <= 'z' || 'A' <= c <= 'Z'
  }

  /** The pattern `\[[a-zA-Z]\]` matches at index `i` of `s`. */
  predicate MarkerAt(s: string, i: int)
  {
    0 <= i && i + 3 <= |s| && s[i] == '[' && IsAsciiLetter(s[i + 1]) && s[i + 2] == ']'
  }

  predicate FootnoteFree(s: string)
  {
    forall i | 0 <= i < |s| :: !MarkerAt(s, i)
  }

  /** Index `k` of `s` lies inside an occurrence of `\[[a-zA-Z]\]`. */
  predicate InMarker(s: string, k: int)
  {
    MarkerAt(s, k) || MarkerAt(s, k - 1) || MarkerAt(s, k - 2)
  }

  /** The characters of `s` from index `i` on that lie inside no marker, in order. */
  function OutsideMarkers(s: string, i: nat): string
    requires i <= |s|
    decreases |s| - i
  {
    if i == |s| then ""
    else (if InMarker(s, i) then "" else [s[i]]) + OutsideMarkers(s, i + 1)
  }

  /** `a` is obtained from `b` by deleting characters, keeping the order of the rest. */
  ghost predicate IsSubsequence(a: string, b: string)
    decreases |b|
  {
    a == [] || (|a| <= |b| && ((a[0] == b[0] && IsSubsequence(a[1..], b[1..])) || IsSubsequence(a, b[1..])))
  }

  /** `re.sub(r'\[[a-zA-Z]\]', '', s)`: one left-to-right scan that deletes every
      match it meets and resumes after it. */
  function StripFootnotes(s: string): string
  {
    if |s| == 0 then ""
    else if MarkerAt(s, 0) then StripFootnotes(s[3..])
    else [s[0]] + StripFootnotes(s[1..])
  }

  /** `re.sub(r'\s+', ' ', s)` as one left-to-right scan: a whitespace
      character becomes ' ' unless the character before it was whitespace too,
      in which case it is dropped; `afterSpace` says whether the character
      just before `s` was whitespace. */
  function CollapseFrom(s: string, afterSpace: bool): string
  {
    if s == [] then ""
    else if IsSpace(s[0]) then (if afterSpace then "" else " ") + CollapseFrom(s[1..], true)
    else [s[0]] + CollapseFrom(s[1..], false)
  }

  /** `re.sub(r'\s+', ' ', s)`: every maximal run of whitespace becomes one space. */
  function CollapseWhitespace(s: string): (r: string)
    ensures s != [] && !IsSpace(s[0]) ==> r != [] && r[0] == s[0]
  {
    CollapseFrom(s, false)
  }

  /** Whether the last character seen after scanning `s` was whitespace. */
  function EndsInSpace(s: string, afterSpace: bool): bool
  {
    if s == [] then afterSpace else IsSpace(s[|s| - 1])
  }

  /** The non-whitespace characters of `s`, in order. */
  function NonSpace(s: string): string
  {
    if s == [] then ""
    else if IsSpace(s[0]) then NonSpace(s[1..])
    else [s[0]] + NonSpace(s[1..])
  }

  /** Already collapsed: no whitespace other than ' ' and no two in a row. */
  predicate Collapsed(s: string)
  {
    (forall i | 0 <= i < |s| :: IsSpace(s[i]) ==> s[i] == ' ')
    && (forall i | 0 <= i < |s| - 1 :: !(IsSpace(s[i]) && IsSpace(s[i + 1])))
  }

  /** `sep.join(parts)`. */
  function Join(parts: seq<string>, sep: string): string
  {
    if |parts| == 0 then ""
    else if |parts| == 1 then parts[0]
    else parts[0] + sep + Join(parts[1..], sep)
  }

  /** `s.split(c)`: the pieces between the occurrences of `c`; always at least one. */
  function Split(s: string, c: char): (r: seq<string>)
    ensures |r| >= 1
  {
    if s == [] then [""]
    else
      var rest := Split(s[1..], c);
      if s[0] == c then [""] + rest else [[s[0]] + rest[0]] + rest[1..]
  }

  predicate IsDigit(c: char)
  {
    '0' <= c <= '9'
  }

  function DigitChar(d: nat): (c: char)
    requires d < 10
    ensures IsDigit(c) && c as int - '0' as int == d
  {
    "0123456789"[d]
  }

  /** `str(n)` for a non-negative integer. */
  function Decimal(n: nat): (r: string)
    ensures |r| >= 1
    ensures forall i | 0 <= i < |r| :: IsDigit(r[i])
    ensures r[0] == '0' ==> n == 0
  {
    if n < 10 then [DigitChar(n)] else Decimal(n / 10) + [DigitChar(n % 10)]
  }

  /** The value of a string of decimal digits, `int(s)`. */
  function DecimalValue(s: string): nat
    requires forall i | 0 <= i < |s| :: IsDigit(s[i])
  {
    if s == [] then 0 else 10 * DecimalValue(s[..|s| - 1]) + DigitValue(s[|s| - 1])
  }

  function DigitValue(c: char): nat
    requires IsDigit(c)
  {
    c as int - '0' as int
  }

  // ---------------------------------------------------------------------------
  // Footnote markers

  /** Exactly what the substitution removes: every character of every
      `[letter]` occurrence goes, every character outside one stays, in order. */
  lemma StripFootnotesExact(s: string)
    ensures StripFootnotes(s) == OutsideMarkers(s, 0)
  {
    StripFootnotesFrom(s, 0);
  }

  /** Markers never overlap, so a scan that reaches index `i` outside any
      marker removes from there on exactly the characters inside markers. */
  lemma {:induction false} StripFootnotesFrom(s: string, i: nat)
    requires i <= |s|
    requires !MarkerAt(s, i - 1) && !MarkerAt(s, i - 2)
    ensures StripFootnotes(s[i..]) == OutsideMarkers(s, i)
    decreases |s| - i
  {
    if i == |s| {
      assert s[i..] == [];
    } else if MarkerAt(s, i) {
      assert MarkerAt(s[i..], 0);
      assert s[i..][3..] == s[i + 3..];
      assert InMarker(s, i) && InMarker(s, i + 1) && InMarker(s, i + 2);
      assert !MarkerAt(s, i + 1) && !MarkerAt(s, i + 2);
      StripFootnotesFrom(s, i + 3);
      assert OutsideMarkers(s, i + 2) == OutsideMarkers(s, i + 3);
    } else {
      assert !MarkerAt(s[i..], 0);
      assert s[i..][1..] == s[i + 1..];
      assert !InMarker(s, i);
      StripFootnotesFrom(s, i + 1);
    }
  }

  /** Whatever the substitution returns is `s` with some characters deleted,
      the others kept in their original order: it follows from the exact
      characterisation, since keeping the characters outside markers deletes
      the rest. */
  lemma StripFootnotesSubsequence(s: string)
    ensures IsSubsequence(StripFootnotes(s), s)
  {
    StripFootnotesExact(s);
    OutsideMarkersSubsequence(s, 0);
    assert s[0..] == s;
  }

  lemma {:induction false} OutsideMarkersSubsequence(s: string, i: nat)
    requires i <= |s|
    ensures |OutsideMarkers(s, i)| <= |s| - i
    ensures IsSubsequence(OutsideMarkers(s, i), s[i..])
    decreases |s| - i
  {
    if i < |s| {
      OutsideMarkersSubsequence(s, i + 1);
      var rest := OutsideMarkers(s, i + 1);
      assert s[i..][0] == s[i] && s[i..][1..] == s[i + 1..];
      if !InMarker(s, i) {
        var r := [s[i]] + rest;
        assert r[0] == s[i] && r[1..] == rest;
      } else {
        assert OutsideMarkers(s, i) == rest;
      }
    }
  }

  /** The substitution leaves a string unchanged exactly when the pattern does not
      occur in it; otherwise it deletes at least one whole three-character marker. */
  lemma {:induction false} StripFootnotesUnchangedIffFree(s: string)
    ensures StripFootnotes(s) == s <==> FootnoteFree(s)
    ensures !FootnoteFree(s) ==> |StripFootnotes(s)| <= |s| - 3
    decreases |s|
  {
    StripFootnotesShorter(s);
    if |s| == 0 {
    } else if MarkerAt(s, 0) {
      StripFootnotesShorter(s[3..]);
    } else {
      StripFootnotesUnchangedIffFree(s[1..]);
      if FootnoteFree(s[1..]) {
        forall i | 0 <= i < |s| ensures !MarkerAt(s, i) {
          if i > 0 { assert !MarkerAt(s[1..], i - 1); }
        }
      } else {
        var k :| 0 <= k < |s[1..]| && MarkerAt(s[1..], k);
        assert MarkerAt(s, k + 1);
      }
    }
  }

  lemma {:induction false} StripFootnotesShorter(s: string)
    ensures |StripFootnotes(s)| <= |s|
    decreases |s|
  {
    if |s| == 0 {
    } else if MarkerAt(s, 0) {
      StripFootnotesShorter(s[3..]);
    } else {
      StripFootnotesShorter(s[1..]);
    }
  }

  /** One pass only: deleting `[a]` from `[[a]b]` joins the rest into a new
      marker `[b]`, which stays. */
  lemma StripFootnotesSinglePass()
    ensures StripFootnotes("[[a]b]") == "[b]"
    ensures !FootnoteFree(StripFootnotes("[[a]b]"))
  {
    assert MarkerAt("[b]", 0);
  }

  /** Deleting a marker brings its two neighbours together. */
  lemma StripFootnotesJoinsNeighbours(s: string)
    requires s == "a [b] c"
    ensures StripFootnotes(s) == "a  c"
  {
    assert !MarkerAt(s[6..], 0) && StripFootnotes(s[6..]) == "c";
    assert !MarkerAt(s[5..], 0) && s[5..][1..] == s[6..];
    assert StripFootnotes(s[5..]) == " c";
    assert MarkerAt(s[2..], 0) && s[2..][3..] == s[5..];
    assert StripFootnotes(s[2..]) == " c";
    assert !MarkerAt(s[1..], 0) && s[1..][1..] == s[2..];
    assert StripFootnotes(s[1..]) == "  c";
    assert !MarkerAt(s, 0);
  }

  // ---------------------------------------------------------------------------
  // Whitespace collapse

  /** The scan yields no whitespace but ' ', never two whitespace characters in
      a row, and nothing whitespace at its start when it starts inside a run. */
  lemma {:induction false} CollapseFromIsCollapsed(s: string, afterSpace: bool)
    ensures Collapsed(CollapseFrom(s, afterSpace))
    ensures afterSpace ==> CollapseFrom(s, afterSpace) == [] || !IsSpace(CollapseFrom(s, afterSpace)[0])
    decreases |s|
  {
    if s != [] {
      var rest := CollapseFrom(s[1..], IsSpace(s[0]));
      CollapseFromIsCollapsed(s[1..], IsSpace(s[0]));
      var r := CollapseFrom(s, afterSpace);
      if IsSpace(s[0]) && afterSpace {
        assert r == rest;
      } else {
        assert r[1..] == rest;
        assert forall i | 1 <= i < |r| :: r[i] == rest[i - 1];
      }
    }
  }

  /** The collapse leaves no whitespace but ' ' and never two whitespace
      characters in a row. */
  lemma CollapseIsCollapsed(s: string)
    ensures Collapsed(CollapseWhitespace(s))
  {
    CollapseFromIsCollapsed(s, false);
  }

  lemma {:induction false} CollapseFromFixes(s: string, afterSpace: bool)
    requires Collapsed(s)
    requires afterSpace ==> s == [] || !IsSpace(s[0])
    ensures CollapseFrom(s, afterSpace) == s
    decreases |s|
  {
    if s != [] {
      assert Collapsed(s[1..]) by {
        forall i | 0 <= i < |s[1..]| - 1 ensures !(IsSpace(s[1..][i]) && IsSpace(s[1..][i + 1])) {
          assert s[1..][i] == s[i + 1] && s[1..][i + 1] == s[i + 2];
        }
      }
      if IsSpace(s[0]) {
        assert s[0] == ' ';
        assert s[1..] == [] || !IsSpace(s[1]);
      }
      CollapseFromFixes(s[1..], IsSpace(s[0]));
    }
  }

  /** A collapsed string is left as it is. */
  lemma CollapseFixesCollapsed(s: string)
    requires Collapsed(s)
    ensures CollapseWhitespace(s) == s
  {
    CollapseFromFixes(s, false);
  }

  /** Collapsing twice is collapsing once. */
  lemma {:induction false} CollapseIdempotent(s: string)
    ensures CollapseWhitespace(CollapseWhitespace(s)) == CollapseWhitespace(s)
  {
    CollapseIsCollapsed(s);
    CollapseFixesCollapsed(CollapseWhitespace(s));
  }

  lemma {:induction false} CollapseFromKeepsNonSpace(s: string, afterSpace: bool)
    ensures NonSpace(CollapseFrom(s, afterSpace)) == NonSpace(s)
    decreases |s|
  {
    if s != [] {
      var rest := CollapseFrom(s[1..], IsSpace(s[0]));
      CollapseFromKeepsNonSpace(s[1..], IsSpace(s[0]));
      if IsSpace(s[0]) {
        if afterSpace {
          assert CollapseFrom(s, afterSpace) == rest;
        } else {
          assert IsSpace((" " + rest)[0]) && (" " + rest)[1..] == rest;
        }
      } else {
        assert ([s[0]] + rest)[1..] == rest;
      }
    }
  }

  /** The collapse keeps every non-whitespace character, in order. */
  lemma CollapseKeepsNonSpace(s: string)
    ensures NonSpace(CollapseWhitespace(s)) == NonSpace(s)
  {
    CollapseFromKeepsNonSpace(s, false);
  }

  /** The scan of a concatenation is the scan of each part, the second one
      started from where the first one ended. */
  lemma {:induction false} CollapseFromAppend(x: string, y: string, afterSpace: bool)
    ensures CollapseFrom(x + y, afterSpace)
            == CollapseFrom(x, afterSpace) + CollapseFrom(y, EndsInSpace(x, afterSpace))
    decreases |x|
  {
    if x == [] {
      assert x + y == y;
    } else {
      assert (x + y)[0] == x[0] && (x + y)[1..] == x[1..] + y;
      assert EndsInSpace(x[1..], IsSpace(x[0])) == EndsInSpace(x, afterSpace);
      CollapseFromAppend(x[1..], y, IsSpace(x[0]));
    }
  }

  /** A non-empty whitespace run is one space, or nothing inside a run. */
  lemma {:induction false} CollapseFromBlank(w: string, afterSpace: bool)
    requires w != [] && IsBlank(w)
    ensures CollapseFrom(w, afterSpace) == if afterSpace then "" else " "
    decreases |w|
  {
    if |w| > 1 {
      CollapseFromBlank(w[1..], true);
    }
  }

  /** Each maximal whitespace run becomes exactly one space, and the text on
      either side of it is collapsed on its own. */
  lemma CollapseRun(a: string, w: string, b: string)
    requires w != [] && IsBlank(w)
    requires a == [] || !IsSpace(a[|a| - 1])
    requires b == [] || !IsSpace(b[0])
    ensures CollapseWhitespace(a + w + b) == CollapseWhitespace(a) + " " + CollapseWhitespace(b)
  {
    CollapseFromAppend(a + w, b, false);
    CollapseFromAppend(a, w, false);
    CollapseFromBlank(w, false);
    assert EndsInSpace(a + w, false);
    assert CollapseFrom(b, true) == CollapseFrom(b, false);
  }

  // ---------------------------------------------------------------------------
  // join and split

  /** Splitting on `c` a string that does not contain `c` gives the string back. */
  lemma {:induction false} SplitWithoutSeparator(a: string, c: char)
    requires c !in a
    ensures Split(a, c) == [a]
    decreases |a|
  {
    if a != [] {
      SplitWithoutSeparator(a[1..], c);
      assert [a[0]] + a[1..] == a;
    }
  }

  /** The first separator ends the first piece. */
  lemma {:induction false} SplitAtFirstSeparator(a: string, c: char, b: string)
    requires c !in a
    ensures Split(a + [c] + b, c) == [a] + Split(b, c)
    decreases |a|
  {
    var s := a + [c] + b;
    if a == [] {
      assert s[1..] == b;
    } else {
      assert s[1..] == a[1..] + [c] + b;
      SplitAtFirstSeparator(a[1..], c, b);
      assert [a[0]] + a[1..] == a;
    }
  }

  /** `sep.join(parts).split(sep)` gives the parts back when none of them holds the
      one-character separator. */
  lemma {:induction false} SplitJoin(parts: seq<string>, c: char)
    requires |parts| >= 1
    requires forall i | 0 <= i < |parts| :: c !in parts[i]
    ensures Split(Join(parts, [c]), c) == parts
    decreases |parts|
  {
    if |parts| == 1 {
      SplitWithoutSeparator(parts[0], c);
    } else {
      SplitJoin(parts[1..], c);
      SplitAtFirstSeparator(parts[0], c, Join(parts[1..], [c]));
    }
  }

  /** Joining parts of which at least one is non-empty gives a non-empty string. */
  lemma {:induction false} JoinNonEmpty(parts: seq<string>, sep: string)
    requires exists i | 0 <= i < |parts| :: parts[i] != ""
    ensures Join(parts, sep) != ""
    decreases |parts|
  {
    if |parts| > 1 && parts[0] == "" {
      var i :| 0 <= i < |parts| && parts[i] != "";
      assert parts[1..][i - 1] != "";
      JoinNonEmpty(parts[1..], sep);
    }
  }

  // ---------------------------------------------------------------------------
  // Decimal rendering

  /** `int(str(n)) == n`. */
  lemma {:induction false} DecimalRoundTrip(n: nat)
    ensures DecimalValue(Decimal(n)) == n
    decreases n
  {
    if n >= 10 {
      DecimalRoundTrip(n / 10);
      var s := Decimal(n);
      assert s[..|s| - 1] == Decimal(n / 10);
    }
  }
}
