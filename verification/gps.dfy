/** The coordinate pattern of the new-task form,
    `^-?\d+(\.\d+)?,\s*-?\d+(\.\d+)?$`, as a character-level predicate
    (`GpsPattern`) and as a deterministic scanner (`MatchGps`), with a proof
    that the two agree. */
module Gps {
  import opened Wrappers
  import Text

  /** JavaScript's `\s`: the ASCII whitespace characters, the no-break and
      other Unicode space separators, the line and paragraph separators and
      the byte-order mark. */
  predicate IsSpace(c: char)
  {
    c == ' ' || c == '\t' || c == '\n' || c == '\U{B}' || c == '\U{C}' || c == '\r'
    || c == '\U{A0}' || c == '\U{1680}' || ('\U{2000}' <= c <= '\U{200A}')
    || c == '\U{2028}' || c == '\U{2029}' || c == '\U{202F}' || c == '\U{205F}'
    || c == '\U{3000}' || c == '\U{FEFF}'
  }

  predicate IsLetter(c: char)
  {
    ('a' <= c <= 'z') || ('A' <= c <= 'Z')
  }

  // ---------------------------------------------------------------------
  // The pattern, piece by piece

  /** `\d+` */
  predicate Digits(s: string)
  {
    |s| > 0 && Text.AllDigits(s)
  }

  /** `\d+(\.\d+)?` */
  predicate Unsigned(s: string)
  {
    Digits(s) || exists k :: 0 < k < |s| && s[k] == '.' && Digits(s[..k]) && Digits(s[k + 1..])
  }

  /** `-?\d+(\.\d+)?` */
  predicate Number(s: string)
  {
    Unsigned(s) || (|s| > 0 && s[0] == '-' && Unsigned(s[1..]))
  }

  /** `\s*` */
  predicate Spaces(s: string)
  {
    forall k :: 0 <= k < |s| ==> IsSpace(s[k])
  }

  /** `s` reads as a number before position `i`, the comma at `i`, white
      space up to `j`, and a number from `j` on. */
  predicate SplitAt(s: string, i: nat, j: nat)
  {
    i < j <= |s| && s[i] == ',' && Number(s[..i]) && Spaces(s[i + 1..j]) && Number(s[j..])
  }

  /** The whole anchored pattern: a number, a comma, optional white space,
      a number. */
  predicate GpsPattern(s: string)
  {
    exists i: nat, j: nat :: i < j <= |s| && SplitAt(s, i, j)
  }

  // ---------------------------------------------------------------------
  // The scanner

  function MatchUnsigned(s: string): bool
  {
    match Text.IndexOf(s, '.')
    case None => Digits(s)
    case Some(k) => Digits(s[..k]) && Digits(s[k + 1..])
  }

  function MatchNumber(s: string): bool
  {
    if |s| > 0 && s[0] == '-' then MatchUnsigned(s[1..]) else MatchUnsigned(s)
  }

  /** The first position at or after `i` that is not white space. */
  function SkipSpaces(s: string, i: nat): (r: nat)
    requires i <= |s|
    ensures i <= r <= |s|
    ensures forall k :: i <= k < r ==> IsSpace(s[k])
    ensures r < |s| ==> !IsSpace(s[r])
    decreases |s| - i
  {
    if i < |s| && IsSpace(s[i]) then SkipSpaces(s, i + 1) else i
  }

  /** Finds the comma, skips the white space after it, and checks the two numbers. */
  function MatchGps(s: string): bool
  {
    match Text.IndexOf(s, ',')
    case None => false
    case Some(i) => MatchNumber(s[..i]) && MatchNumber(s[SkipSpaces(s, i + 1)..])
  }

  // ---------------------------------------------------------------------
  // Agreement

  predicate NumberChar(c: char)
  {
    Text.IsDigit(c) || c == '-' || c == '.'
  }

  lemma UnsignedChars(s: string)
    requires Unsigned(s)
    ensures forall k :: 0 <= k < |s| ==> Text.IsDigit(s[k]) || s[k] == '.'
  {
    if !Digits(s) {
      var m :| 0 < m < |s| && s[m] == '.' && Digits(s[..m]) && Digits(s[m + 1..]);
      forall k | 0 <= k < |s| ensures Text.IsDigit(s[k]) || s[k] == '.' {
        if k < m {
          assert s[k] == s[..m][k];
        } else if m < k {
          assert s[k] == s[m + 1..][k - m - 1];
        }
      }
    }
  }

  /** A number is non-empty and consists of digits, a minus sign and a
      decimal point only: no comma and no white space. */
  lemma NumberChars(s: string)
    requires Number(s)
    ensures |s| > 0
    ensures forall k :: 0 <= k < |s| ==> NumberChar(s[k])
    ensures ',' !in s
  {
    if Unsigned(s) {
      UnsignedChars(s);
    } else {
      UnsignedChars(s[1..]);
      forall k | 1 <= k < |s| ensures NumberChar(s[k]) {
        assert s[k] == s[1..][k - 1];
      }
    }
  }

  lemma MatchUnsignedCorrect(s: string)
    ensures MatchUnsigned(s) <==> Unsigned(s)
  {
    match Text.IndexOf(s, '.')
    case None =>
    case Some(k) =>
      assert !Digits(s) by {
        assert !Text.IsDigit(s[k]);
      }
      if Unsigned(s) {
        var m :| 0 < m < |s| && s[m] == '.' && Digits(s[..m]) && Digits(s[m + 1..]);
        assert m == k;
      }
  }

  lemma MatchNumberCorrect(s: string)
    ensures MatchNumber(s) <==> Number(s)
  {
    MatchUnsignedCorrect(s);
    if |s| > 0 {
      MatchUnsignedCorrect(s[1..]);
      if s[0] == '-' && Unsigned(s) {
        UnsignedChars(s);
        assert false;
      }
    }
  }

  /** The scanner finds the split the pattern describes. */
  lemma PatternMatches(s: string, i: nat, j: nat)
    requires SplitAt(s, i, j)
    ensures MatchGps(s)
  {
    NumberChars(s[..i]);
    NumberChars(s[j..]);
    Text.IndexOfAfterPrefix(s[..i], s[i..], ',');
    assert s[..i] + s[i..] == s;
    forall k | i + 1 <= k < j ensures IsSpace(s[k]) {
      assert s[i + 1..j][k - i - 1] == s[k];
    }
    assert s[j..][0] == s[j];
    assert NumberChar(s[j]);
    SkipSpacesStopsAt(s, i + 1, j);
    MatchNumberCorrect(s[..i]);
    MatchNumberCorrect(s[j..]);
  }

  /** The split the scanner finds is one the pattern describes. */
  lemma ScannerSplits(s: string)
    requires MatchGps(s)
    ensures GpsPattern(s)
  {
    var i := Text.IndexOf(s, ',').value;
    var j := SkipSpaces(s, i + 1);
    MatchNumberCorrect(s[..i]);
    MatchNumberCorrect(s[j..]);
    var gap := s[i + 1..j];
    assert Spaces(gap) by {
      forall m | 0 <= m < |gap| ensures IsSpace(gap[m]) {
        assert gap[m] == s[i + 1 + m];
      }
    }
    assert SplitAt(s, i, j);
  }

  /** The scanner accepts exactly the strings the pattern matches. */
  lemma MatchGpsCorrect(s: string)
    ensures MatchGps(s) <==> GpsPattern(s)
  {
    if GpsPattern(s) {
      var i: nat, j: nat :| i < j <= |s| && SplitAt(s, i, j);
      PatternMatches(s, i, j);
    }
    if MatchGps(s) {
      ScannerSplits(s);
    }
  }

  /** Skipping white space stops at the first character that is not white space. */
  lemma SkipSpacesStopsAt(s: string, i: nat, j: nat)
    requires i <= j < |s|
    requires forall k :: i <= k < j ==> IsSpace(s[k])
    requires !IsSpace(s[j])
    ensures SkipSpaces(s, i) == j
    decreases j - i
  {
    if i < j {
      SkipSpacesStopsAt(s, i + 1, j);
    }
  }

  // ---------------------------------------------------------------------
  // Shape of accepted strings

  function CountChar(s: string, c: char): nat
    decreases |s|
  {
    if |s| == 0 then 0 else (if s[0] == c then 1 else 0) + CountChar(s[1..], c)
  }

  lemma {:induction false} CountCharAppend(a: string, b: string, c: char)
    ensures CountChar(a + b, c) == CountChar(a, c) + CountChar(b, c)
    decreases |a|
  {
    if |a| == 0 {
      assert a + b == b;
    } else {
      assert (a + b)[1..] == a[1..] + b;
      CountCharAppend(a[1..], b, c);
    }
  }

  lemma {:induction false} CountCharAbsent(s: string, c: char)
    requires c !in s
    ensures CountChar(s, c) == 0
    decreases |s|
  {
    if |s| > 0 {
      CountCharAbsent(s[1..], c);
    }
  }

  /** Every accepted coordinate string is made of digits, signs, points,
      white space and exactly one comma; in particular it has no letters. */
  lemma GpsShape(s: string)
    requires GpsPattern(s)
    ensures CountChar(s, ',') == 1
    ensures forall k :: 0 <= k < |s| ==> NumberChar(s[k]) || s[k] == ',' || IsSpace(s[k])
    ensures forall k :: 0 <= k < |s| ==> !IsLetter(s[k])
  {
    var i: nat, j: nat :| i < j <= |s| && SplitAt(s, i, j);
    NumberChars(s[..i]);
    NumberChars(s[j..]);
    CommaCount(s, i, j);
    SplitChars(s, i, j);
  }

  lemma SplitChars(s: string, i: nat, j: nat)
    requires SplitAt(s, i, j)
    requires forall k :: 0 <= k < i ==> NumberChar(s[..i][k])
    requires forall k :: 0 <= k < |s| - j ==> NumberChar(s[j..][k])
    ensures forall k :: 0 <= k < |s| ==> NumberChar(s[k]) || s[k] == ',' || IsSpace(s[k])
  {
    forall k | 0 <= k < |s| ensures NumberChar(s[k]) || s[k] == ',' || IsSpace(s[k]) {
      if k < i {
        assert s[k] == s[..i][k];
      } else if i < k < j {
        assert s[k] == s[i + 1..j][k - i - 1];
      } else if j <= k {
        assert s[k] == s[j..][k - j];
      }
    }
  }

  lemma CommaCount(s: string, i: nat, j: nat)
    requires i < j <= |s| && s[i] == ','
    requires ',' !in s[..i] && Spaces(s[i + 1..j]) && ',' !in s[j..]
    ensures CountChar(s, ',') == 1
  {
    var a, b, c, d := s[..i], s[i..i + 1], s[i + 1..j], s[j..];
    assert ',' !in c by {
      forall k | 0 <= k < |c| ensures c[k] != ',' {
        assert IsSpace(c[k]);
      }
    }
    assert b == [','];
    assert CountChar(b, ',') == 1;
    CountCharAbsent(a, ',');
    CountCharAbsent(c, ',');
    CountCharAbsent(d, ',');
    var ab := a + b;
    CountCharAppend(a, b, ',');
    var abc := ab + c;
    CountCharAppend(ab, c, ',');
    CountCharAppend(abc, d, ',');
    assert abc == s[..j];
    assert abc + d == s;
  }
}
