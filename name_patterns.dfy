/**
 The name patterns the cleanup passes test: the `.json` suffix of a sidecar file,
 the `(digits)` marker of a numbered copy (the regular expression `\(\d+\)`,
 searched for and substituted away) and the hyphen tag (the first group of the
 regular expression `-(\D+)\.`), plus the yes/no reading of a console answer.
 Digits are the ASCII digits '0' to '9'.
 */
module NamePatterns {

  datatype Option<T> = None | Some(value: T)

  /** `\d`, restricted to ASCII. */
  predicate IsDigit(c: char)
  {
    '0' <= c <= '9'
  }

  /** `s.endswith(suffix)`. */
  predicate EndsWith(s: string, suffix: string)
  {
    |suffix| <= |s| && s[|s| - |suffix|..] == suffix
  }

  const JsonSuffix: string := ".json"

  /** A sidecar metadata file: its name ends in `.json`. */
  predicate IsJsonName(name: string)
  {
    EndsWith(name, JsonSuffix)
  }

  /** A name is a sidecar name exactly when it is some text followed by `.json`. */
  lemma JsonNameIff(name: string)
    ensures IsJsonName(name) <==> exists p :: name == p + ".json"
  {
    if IsJsonName(name) {
      var p := name[..|name| - 5];
      assert name == p + ".json";
    }
    if exists p :: name == p + ".json" {
      var p :| name == p + ".json";
      assert name[|p|..] == ".json";
    }
  }

  // ---------------------------------------------------------------------------
  // The duplicate marker `\(\d+\)`
  // ---------------------------------------------------------------------------

  /** `t` is exactly one match of `\(\d+\)`: "(", one or more digits, ")". */
  ghost predicate IsNumberToken(t: string)
  {
    3 <= |t| && t[0] == '(' && t[|t| - 1] == ')' && forall k :: 1 <= k < |t| - 1 ==> IsDigit(t[k])
  }

  /** The length of the run of digits at the front of `s`. */
  function DigitPrefix(s: string): (n: nat)
    ensures n <= |s|
    ensures forall k :: 0 <= k < n ==> IsDigit(s[k])
    ensures n < |s| ==> !IsDigit(s[n])
  {
    if s != [] && IsDigit(s[0]) then 1 + DigitPrefix(s[1..]) else 0
  }

  /** The length of the match of `\(\d+\)` that starts at the front of `s`, if there is one. */
  function NumberMatch(s: string): (m: Option<nat>)
    ensures m.Some? ==> m.value <= |s| && IsNumberToken(s[..m.value])
  {
    if |s| < 3 || s[0] != '(' then None
    else
      var d := DigitPrefix(s[1..]);
      if 1 <= d && d + 1 < |s| && s[d + 1] == ')' then Some(d + 2) else None
  }

  /** A match at the front of `s` is always found, and it is the only one there. */
  lemma NumberMatchComplete(s: string, n: nat)
    requires n <= |s| && IsNumberToken(s[..n])
    ensures NumberMatch(s) == Some(n)
  {
    var d := DigitPrefix(s[1..]);
    forall k | 0 <= k < n - 2 ensures IsDigit(s[1..][k]) {
      assert s[1..][k] == s[..n][k + 1];
    }
    assert s[1..][n - 2] == s[..n][n - 1] == ')';
  }

  /** `re.search(r'\(\d+\)', s)` succeeds: a match starts at some position. */
  predicate HasNumber(s: string)
    decreases |s|
  {
    s != [] && (NumberMatch(s).Some? || HasNumber(s[1..]))
  }

  /** `HasNumber` holds exactly when some substring of `s` is a `(digits)` marker. */
  lemma {:induction false} HasNumberIffContains(s: string)
    ensures HasNumber(s) <==> exists i, j :: 0 <= i <= j <= |s| && IsNumberToken(s[i..j])
    decreases |s|
  {
    if s == [] {
      forall i, j | 0 <= i <= j <= |s| ensures !IsNumberToken(s[i..j]) { }
    } else {
      HasNumberIffContains(s[1..]);
      if HasNumber(s) {
        if NumberMatch(s).Some? {
          var n := NumberMatch(s).value;
          assert s[0..n] == s[..n];
        } else {
          var i, j :| 0 <= i <= j <= |s| - 1 && IsNumberToken(s[1..][i..j]);
          assert s[1..][i..j] == s[i + 1..j + 1];
        }
      }
      if exists i, j :: 0 <= i <= j <= |s| && IsNumberToken(s[i..j]) {
        var i, j :| 0 <= i <= j <= |s| && IsNumberToken(s[i..j]);
        if i == 0 {
          assert s[..j] == s[i..j];
          NumberMatchComplete(s, j);
        } else {
          assert s[1..][i - 1..j - 1] == s[i..j];
        }
      }
    }
  }

  /** `re.sub(r'\(\d+\)', '', s)`: scanning from the left, each match is deleted
      and the scan resumes right after it. */
  function StripNumbers(s: string): (r: string)
    ensures |r| <= |s|
    ensures HasNumber(s) ==> |r| < |s|
    ensures r == s <==> !HasNumber(s)
    decreases |s|
  {
    if s == [] then []
    else
      match NumberMatch(s)
      case Some(n) => StripNumbers(s[n..])
      case None => [s[0]] + StripNumbers(s[1..])
  }

  /** A name without `(` holds no marker, so the substitution leaves it alone. */
  lemma {:induction false} NoParenNoNumber(s: string)
    requires '(' !in s
    ensures !HasNumber(s) && StripNumbers(s) == s
    decreases |s|
  {
    if s != [] {
      assert s[0] in s;
      assert forall c :: c in s[1..] ==> c in s;
      NoParenNoNumber(s[1..]);
    }
  }

  /** A marker at the front is deleted and the scan resumes right after it. */
  lemma StripNumbersAtMarker(t: string, q: string)
    requires IsNumberToken(t)
    ensures StripNumbers(t + q) == StripNumbers(q)
  {
    var s := t + q;
    assert s[..|t|] == t && s[|t|..] == q;
    NumberMatchComplete(s, |t|);
  }

  /** A character other than `(` at the front is kept. */
  lemma StripNumbersKeeps(c: char, q: string)
    requires c != '('
    ensures StripNumbers([c] + q) == [c] + StripNumbers(q)
  {
    assert ([c] + q)[1..] == q;
  }

  /** The substitution deletes a marker that follows a stretch without `(`,
      keeps that stretch, and goes on after the marker. */
  lemma {:induction false} StripNumbersMarker(p: string, t: string, q: string)
    requires '(' !in p && IsNumberToken(t)
    ensures StripNumbers(p + t + q) == p + StripNumbers(q)
    decreases |p|
  {
    if p == [] {
      assert p + t + q == t + q;
      StripNumbersAtMarker(t, q);
    } else {
      var rest := p[1..];
      assert p == [p[0]] + rest;
      assert p + t + q == [p[0]] + (rest + t + q);
      StripNumbersKeeps(p[0], rest + t + q);
      StripNumbersMarker(rest, t, q);
      ConsAppend(p[0], rest, StripNumbers(q));
    }
  }

  /** Regrouping a front element with the sequence after it; kept as a lemma so
      that the proof above does not search for it among sequence axioms. */
  lemma ConsAppend<T>(h: T, a: seq<T>, b: seq<T>)
    ensures [h] + (a + b) == ([h] + a) + b
  {
  }

  /** A `(` that starts no marker is kept, and the scan goes on right after it. */
  lemma StripNumbersKeepsParen(q: string)
    requires forall n :: 0 <= n <= |q| + 1 ==> !IsNumberToken(("(" + q)[..n])
    ensures StripNumbers("(" + q) == "(" + StripNumbers(q)
  {
    var s := "(" + q;
    assert NumberMatch(s) == None;
    assert s[1..] == q;
  }

  /** A `(` followed by a character other than a digit starts no marker. */
  lemma StripNumbersParenNonDigit(c: char, r: string)
    requires !IsDigit(c)
    ensures StripNumbers("(" + ([c] + r)) == "(" + StripNumbers([c] + r)
  {
    var q := [c] + r;
    forall n | 0 <= n <= |q| + 1 ensures !IsNumberToken(("(" + q)[..n]) {
      if 3 <= n {
        assert ("(" + q)[..n][1] == c;
      }
    }
    StripNumbersKeepsParen(q);
  }

  /** In `c((1)tail)` only the inner `(1)` is a marker: the outer `(` is
      followed by another `(`, not a digit. */
  lemma StripNumbersNested(c: char, tail: string)
    requires c != '(' && '(' !in tail
    ensures StripNumbers([c] + ("(" + ("(1)" + tail))) == [c] + ("(" + tail)
  {
    var t := "(1)";
    assert IsNumberToken(t);
    StripNumbersAtMarker(t, tail);
    NoParenNoNumber(tail);
    assert t + tail == ['('] + ("1)" + tail);
    StripNumbersParenNonDigit('(', "1)" + tail);
    StripNumbersKeeps(c, "(" + (t + tail));
  }

  /** So `x((1)1)` becomes `x(1)`, which is numbered again. */
  lemma StripNumbersNestedExample()
    ensures StripNumbers("x((1)1)") == "x(1)"
  {
    assert "x((1)1)" == ['x'] + ("(" + ("(1)" + "1)"));
    assert "x(1)" == ['x'] + ("(" + "1)");
    assert '(' !in "1)";
    StripNumbersNested('x', "1)");
  }

  /** A copy numbered `(1)` of a name without `(`: it holds a marker, and the
      substitution gives back the name, which holds none. */
  lemma NumberedCopy(base: string, ext: string)
    requires '(' !in base && '(' !in ext
    ensures HasNumber(base + "(1)" + ext)
    ensures StripNumbers(base + "(1)" + ext) == base + ext
    ensures !HasNumber(base + ext)
  {
    var t := "(1)";
    assert IsNumberToken(t);
    assert '(' !in base + ext;
    NoParenNoNumber(ext);
    NoParenNoNumber(base + ext);
    StripNumbersMarker(base, t, ext);
  }

  /** `img(1).jpg` becomes `img.jpg`; `img.jpg` holds no marker. */
  lemma StripNumbersExample()
    ensures StripNumbers("img(1).jpg") == "img.jpg"
    ensures HasNumber("img(1).jpg") && !HasNumber("img.jpg")
  {
    assert "img(1).jpg" == "img" + "(1)" + ".jpg";
    assert "img.jpg" == "img" + ".jpg";
    NumberedCopy("img", ".jpg");
  }

  // ---------------------------------------------------------------------------
  // The hyphen tag `-(\D+)\.`
  // ---------------------------------------------------------------------------

  /** `-(\D+)\.` matches `s[i..j + 1]`: a hyphen at `i`, a dot at `j`, and at
      least one character, none of them a digit, in between. */
  ghost predicate IsTagMatch(s: string, i: int, j: int)
  {
    0 <= i && i + 2 <= j < |s| && s[i] == '-' && s[j] == '.' &&
    forall k :: i < k < j ==> !IsDigit(s[k])
  }

  /** The match `re.search` reports: it starts as far left as any match does,
      and from that start the greedy `\D+` makes it as long as possible. */
  ghost predicate IsSearchMatch(s: string, i: int, j: int)
  {
    && IsTagMatch(s, i, j)
    && (forall i', j' :: 0 <= i' < i ==> !IsTagMatch(s, i', j'))
    && (forall j' :: j < j' ==> !IsTagMatch(s, i, j'))
  }

  /** The end of the run of non-digits that starts at `k`. */
  function NonDigitRunEnd(s: string, k: nat): (e: nat)
    requires k <= |s|
    ensures k <= e <= |s|
    decreases |s| - k
  {
    if k < |s| && !IsDigit(s[k]) then NonDigitRunEnd(s, k + 1) else k
  }

  /** The run ends at the first digit at or after `k`, or at the end of `s`. */
  lemma {:induction false} NonDigitRunEndIsRunEnd(s: string, k: nat)
    requires k <= |s|
    ensures forall m :: k <= m < NonDigitRunEnd(s, k) ==> !IsDigit(s[m])
    ensures NonDigitRunEnd(s, k) < |s| ==> IsDigit(s[NonDigitRunEnd(s, k)])
    decreases |s| - k
  {
    if k < |s| && !IsDigit(s[k]) {
      NonDigitRunEndIsRunEnd(s, k + 1);
    }
  }

  /** The position of the last dot in `s[lo..hi]`, if there is one. */
  function LastDot(s: string, lo: nat, hi: nat): (j: Option<nat>)
    requires hi <= |s|
    ensures j.Some? ==> lo <= j.value < hi
    decreases hi
  {
    if hi <= lo then None
    else if s[hi - 1] == '.' then Some(hi - 1)
    else LastDot(s, lo, hi - 1)
  }

  /** `LastDot` finds a dot with no dot after it before `hi`, and finds none only
      when `s[lo..hi]` has no dot. */
  lemma {:induction false} LastDotIsLast(s: string, lo: nat, hi: nat)
    requires hi <= |s|
    ensures LastDot(s, lo, hi).Some? ==>
      s[LastDot(s, lo, hi).value] == '.' && forall m :: LastDot(s, lo, hi).value < m < hi ==> s[m] != '.'
    ensures LastDot(s, lo, hi).None? ==> forall m :: lo <= m < hi ==> s[m] != '.'
    decreases hi
  {
    if lo < hi && s[hi - 1] != '.' {
      LastDotIsLast(s, lo, hi - 1);
    }
  }

  /** The search for `-(\D+)\.` from position `i` on: the hyphen and the dot of the match. */
  function TagSpanFrom(s: string, i: nat): (m: Option<(nat, nat)>)
    ensures m.Some? ==> m.value.0 + 2 <= m.value.1 < |s|
    decreases |s| - i
  {
    if i >= |s| then None
    else
      var dot := if s[i] == '-' then LastDot(s, i + 2, NonDigitRunEnd(s, i + 1)) else None;
      if dot.Some? then Some((i, dot.value)) else TagSpanFrom(s, i + 1)
  }

  /** The search from `i` finds the leftmost match starting at or after `i`, and
      at that start the match with the last dot; it finds none only when there is none. */
  lemma {:induction false} TagSpanFromIsSearch(s: string, i: nat)
    ensures var m := TagSpanFrom(s, i);
      && (m.Some? ==> i <= m.value.0 && IsTagMatch(s, m.value.0, m.value.1))
      && (m.Some? ==> forall a, b :: i <= a < m.value.0 ==> !IsTagMatch(s, a, b))
      && (m.Some? ==> forall b :: m.value.1 < b ==> !IsTagMatch(s, m.value.0, b))
      && (m.None? ==> forall a, b :: i <= a ==> !IsTagMatch(s, a, b))
    decreases |s| - i
  {
    if i < |s| {
      if s[i] == '-' {
        NonDigitRunEndIsRunEnd(s, i + 1);
        LastDotIsLast(s, i + 2, NonDigitRunEnd(s, i + 1));
      }
      var dot := if s[i] == '-' then LastDot(s, i + 2, NonDigitRunEnd(s, i + 1)) else None;
      if dot.None? {
        TagSpanFromIsSearch(s, i + 1);
        assert forall b :: !IsTagMatch(s, i, b) by {
          if s[i] == '-' {
            var e := NonDigitRunEnd(s, i + 1);
            forall b | IsTagMatch(s, i, b) ensures false { }
          }
        }
      }
    }
  }

  /** The tag of a file name: `re.search(r'-(\D+)\.', s).groups()[0]`, or None
      when the search finds nothing. */
  function HyphenTag(s: string): Option<string>
  {
    match TagSpanFrom(s, 0)
    case Some((i, j)) => Some(s[i + 1..j])
    case None => None
  }

  /** There is a tag exactly when `-(\D+)\.` matches somewhere, and then it is the
      text between the hyphen and the dot of the leftmost-longest match: one or
      more characters, none of them a digit. */
  lemma HyphenTagIsSearchMatch(s: string)
    ensures HyphenTag(s).None? <==> forall i, j :: !IsTagMatch(s, i, j)
    ensures HyphenTag(s).Some? ==> exists i, j :: IsSearchMatch(s, i, j) && HyphenTag(s).value == s[i + 1..j]
    ensures HyphenTag(s).Some? ==> 1 <= |HyphenTag(s).value| && forall k :: 0 <= k < |HyphenTag(s).value| ==> !IsDigit(HyphenTag(s).value[k])
  {
    TagSpanFromIsSearch(s, 0);
    match TagSpanFrom(s, 0)
    case Some((i, j)) =>
      assert IsSearchMatch(s, i, j);
    case None =>
  }

  /** Conversely, the leftmost-longest match determines the tag. */
  lemma HyphenTagOfSearchMatch(s: string, i: int, j: int)
    requires IsSearchMatch(s, i, j)
    ensures HyphenTag(s) == Some(s[i + 1..j])
  {
    TagSpanFromIsSearch(s, 0);
    assert TagSpanFrom(s, 0).Some?;
    var (i', j') := TagSpanFrom(s, 0).value;
    assert i' >= i by {
      assert forall a, b :: 0 <= a < i ==> !IsTagMatch(s, a, b);
    }
    assert i >= i' by {
      assert forall a, b :: 0 <= a < i' ==> !IsTagMatch(s, a, b);
    }
    assert j' <= j by {
      assert forall b :: j < b ==> !IsTagMatch(s, i, b);
    }
    assert j <= j' by {
      assert forall b :: j' < b ==> !IsTagMatch(s, i', b);
    }
  }

  /** The search takes the leftmost hyphen, not the last one: the tag of
      `x-PANO-edited.jpg` is `PANO-edited`, an entry of the remove list. */
  lemma HyphenTagExample()
    ensures HyphenTag("x-PANO-edited.jpg") == Some("PANO-edited")
  {
    var s := "x-PANO-edited.jpg";
    assert |s| == 17 && s[1] == '-' && s[13] == '.';
    assert s[14] != '.' && s[15] != '.' && s[16] != '.';
    assert s[2..13] == "PANO-edited";
    assert forall k :: 2 <= k < 13 ==> !IsDigit(s[k]);
    HyphenTagOfSearchMatch(s, 1, 13);
  }

  /** A name without `-` has no tag. */
  lemma NoHyphenNoTag(s: string)
    requires '-' !in s
    ensures HyphenTag(s) == None
  {
    HyphenTagIsSearchMatch(s);
    forall i, j ensures !IsTagMatch(s, i, j) {
      if 0 <= i < |s| {
        assert s[i] in s;
      }
    }
  }

  /** The tag of `clip-SNOW.jpg` is `SNOW`, an entry of the remove list. */
  lemma HyphenTagSnowExample()
    ensures HyphenTag("clip-SNOW.jpg") == Some("SNOW")
  {
    var s := "clip-SNOW.jpg";
    assert |s| == 13 && s[4] == '-' && s[9] == '.';
    assert s[0] != '-' && s[1] != '-' && s[2] != '-' && s[3] != '-';
    assert s[10] != '.' && s[11] != '.' && s[12] != '.';
    assert s[5..9] == "SNOW";
    assert forall k :: 5 <= k < 9 ==> !IsDigit(s[k]);
    HyphenTagOfSearchMatch(s, 4, 9);
  }

  // ---------------------------------------------------------------------------
  // The console answer
  // ---------------------------------------------------------------------------

  /** `str.lower` on one character, restricted to ASCII letters. */
  function ToLower(c: char): char
  {
    if 'A' <= c <= 'Z' then (c as int + 32) as char else c
  }

  /** `str.lower`, restricted to ASCII letters. */
  function Lower(s: string): (r: string)
    ensures |r| == |s|
    ensures forall k :: 0 <= k < |s| ==> r[k] == ToLower(s[k])
  {
    if s == [] then [] else [ToLower(s[0])] + Lower(s[1..])
  }

  /** `response.lower() == 'y'`. */
  predicate IsYes(response: string)
  {
    Lower(response) == "y"
  }

  /** Exactly the answers "y" and "Y" mean yes. */
  lemma IsYesIff(response: string)
    ensures IsYes(response) <==> response == "y" || response == "Y"
  {
    if IsYes(response) {
      assert Lower(response)[0] == ToLower(response[0]) == 'y';
    }
  }
}
