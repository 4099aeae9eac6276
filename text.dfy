/**
 * The JavaScript string operations the reconciliation code relies on:
 * `trim`, `toLowerCase`, `includes`, `split('\n')` and the decimal
 * rendering of a line number.
 */
module Text {

  /** The characters `String.prototype.trim` removes: WhiteSpace and LineTerminator of ECMAScript. */
  predicate IsJsWhitespace(c: char)
  {
    || c == ' ' || c == '\t' || c == '\n' || c == '\r'
    || c == '\U{000B}' || c == '\U{000C}' || c == '\U{00A0}' || c == '\U{1680}'
    || ('\U{2000}' <= c <= '\U{200A}')
    || c == '\U{2028}' || c == '\U{2029}' || c == '\U{202F}' || c == '\U{205F}'
    || c == '\U{3000}' || c == '\U{FEFF}'
  }

  predicate AllWhitespace(s: string)
  {
    forall i :: 0 <= i < |s| ==> IsJsWhitespace(s[i])
  }

  /** `s` with its leading whitespace removed. */
  function TrimStart(s: string): (r: string)
    ensures |r| <= |s| && r == s[|s| - |r|..]
    ensures r == [] || !IsJsWhitespace(r[0])
    ensures AllWhitespace(s[..|s| - |r|])
  {
    if |s| > 0 && IsJsWhitespace(s[0]) then TrimStart(s[1..]) else s
  }

  /** `s` with its trailing whitespace removed. */
  function TrimEnd(s: string): (r: string)
    ensures |r| <= |s| && r == s[..|r|]
    ensures r == [] || !IsJsWhitespace(r[|r| - 1])
    ensures AllWhitespace(s[|r|..])
  {
    if |s| > 0 && IsJsWhitespace(s[|s| - 1]) then
      var r := TrimEnd(s[..|s| - 1]);
      assert s[|r|..] == s[..|s| - 1][|r|..] + [s[|s| - 1]];
      r
    else
      s
  }

  /** `String.prototype.trim`. */
  function Trim(s: string): string
  {
    TrimEnd(TrimStart(s))
  }

  /** A trimmed string is empty exactly when every character was whitespace. */
  lemma TrimEmptyIff(s: string)
    ensures Trim(s) == "" <==> AllWhitespace(s)
  {
  }

  lemma {:induction false} TrimStartWhitespacePrefix(p: string, s: string)
    requires AllWhitespace(p)
    ensures TrimStart(p + s) == TrimStart(s)
  {
    if p != [] {
      assert (p + s)[0] == p[0];
      assert (p + s)[1..] == p[1..] + s;
      TrimStartWhitespacePrefix(p[1..], s);
    } else {
      assert p + s == s;
    }
  }

  lemma {:induction false} TrimEndWhitespaceSuffix(s: string, q: string)
    requires AllWhitespace(q)
    ensures TrimEnd(s + q) == TrimEnd(s)
  {
    if q != [] {
      var q' := q[..|q| - 1];
      assert (s + q)[|s + q| - 1] == q[|q| - 1];
      assert (s + q)[..|s + q| - 1] == s + q';
      TrimEndWhitespaceSuffix(s, q');
    } else {
      assert s + q == s;
    }
  }

  lemma {:induction false} TrimStartAppend(c: string, q: string)
    requires !AllWhitespace(c)
    ensures TrimStart(c + q) == TrimStart(c) + q
  {
    assert c != [];
    assert (c + q)[0] == c[0];
    if IsJsWhitespace(c[0]) {
      assert (c + q)[1..] == c[1..] + q;
      assert !AllWhitespace(c[1..]) by {
        var i :| 0 <= i < |c| && !IsJsWhitespace(c[i]);
        assert c[1..][i - 1] == c[i];
      }
      TrimStartAppend(c[1..], q);
    }
  }

  /** Whitespace added before or after a string does not change its trim. */
  lemma TrimPadded(p: string, c: string, q: string)
    requires AllWhitespace(p) && AllWhitespace(q)
    ensures Trim(p + c + q) == Trim(c)
  {
    assert p + c + q == p + (c + q);
    TrimStartWhitespacePrefix(p, c + q);
    if AllWhitespace(c) {
      assert AllWhitespace(c + q) by {
        forall i | 0 <= i < |c + q| ensures IsJsWhitespace((c + q)[i]) {
          if i < |c| { assert (c + q)[i] == c[i]; } else { assert (c + q)[i] == q[i - |c|]; }
        }
      }
      TrimStartWhitespacePrefix(c + q, []);
      assert c + q + [] == c + q;
      TrimStartWhitespacePrefix(c, []);
      assert c + [] == c;
    } else {
      TrimStartAppend(c, q);
      TrimEndWhitespaceSuffix(TrimStart(c), q);
    }
  }

  /**
   * `toLowerCase` on one character, for the Basic Latin and Latin-1 letters:
   * A-Z and U+00C0..U+00DE (except the multiplication sign U+00D7) move up by 32.
   */
  function LowerChar(c: char): char
  {
    if 'A' <= c <= 'Z' || ('\U{00C0}' <= c <= '\U{00DE}' && c != '\U{00D7}') then (c as int + 32) as char else c
  }

  /** `String.prototype.toLowerCase`, character by character. */
  function Lower(s: string): (r: string)
    ensures |r| == |s|
    ensures forall i :: 0 <= i < |s| ==> r[i] == LowerChar(s[i])
  {
    if s == [] then [] else [LowerChar(s[0])] + Lower(s[1..])
  }

  /** Lowercasing an already lowercased string changes nothing. */
  lemma LowerIdempotent(s: string)
    ensures Lower(Lower(s)) == Lower(s)
  {
  }

  /** Lowercasing never turns a letter into whitespace or whitespace into a letter. */
  lemma LowerCharWhitespace(c: char)
    ensures IsJsWhitespace(LowerChar(c)) <==> IsJsWhitespace(c)
  {
  }

  /** Trimming and lowercasing commute. */
  lemma {:induction false} TrimLower(s: string)
    ensures Trim(Lower(s)) == Lower(Trim(s))
  {
    LowerTrimStart(s);
    LowerTrimEnd(TrimStart(s));
  }

  lemma {:induction false} LowerTrimStart(s: string)
    ensures TrimStart(Lower(s)) == Lower(TrimStart(s))
  {
    if |s| > 0 {
      LowerCharWhitespace(s[0]);
      assert Lower(s)[1..] == Lower(s[1..]);
      LowerTrimStart(s[1..]);
    }
  }

  lemma {:induction false} LowerTrimEnd(s: string)
    ensures TrimEnd(Lower(s)) == Lower(TrimEnd(s))
  {
    if |s| > 0 {
      var n := |s|;
      var l := Lower(s);
      assert l[n - 1] == LowerChar(s[n - 1]);
      LowerCharWhitespace(s[n - 1]);
      assert l[..n - 1] == Lower(s[..n - 1]);
      LowerTrimEnd(s[..n - 1]);
      if IsJsWhitespace(s[n - 1]) {
        assert TrimEnd(l) == TrimEnd(l[..n - 1]);
        assert TrimEnd(s) == TrimEnd(s[..n - 1]);
      } else {
        assert TrimEnd(l) == l;
        assert TrimEnd(s) == s;
      }
    }
  }

  /** `pat` occurs in `s` at some position. */
  predicate Contains(s: string, pat: string)
  {
    exists i :: 0 <= i <= |s| && OccursAt(s, pat, i)
  }

  /** `s.includes(pat)`, as a scan from the left: does `pat` start here, or further on? */
  predicate Includes(s: string, pat: string)
    decreases |s|
  {
    pat <= s || (s != [] && Includes(s[1..], pat))
  }

  /** An occurrence in the tail is an occurrence one position further in the whole. */
  lemma OccursAtTail(s: string, pat: string, i: nat)
    requires s != []
    ensures OccursAt(s[1..], pat, i) <==> OccursAt(s, pat, i + 1)
  {
    if i + 1 + |pat| <= |s| {
      assert s[1..][i..i + |pat|] == s[i + 1..i + 1 + |pat|];
    }
  }

  /** The scan finds the pattern exactly when it occurs somewhere. */
  lemma {:induction false} IncludesIff(s: string, pat: string)
    ensures Includes(s, pat) <==> Contains(s, pat)
    decreases |s|
  {
    if pat <= s {
      assert OccursAt(s, pat, 0);
    } else if s == [] {
      assert !OccursAt(s, pat, 0);
    } else {
      IncludesIff(s[1..], pat);
      if Contains(s[1..], pat) {
        var i :| 0 <= i <= |s[1..]| && OccursAt(s[1..], pat, i);
        OccursAtTail(s, pat, i);
      }
      if Contains(s, pat) {
        var i :| 0 <= i <= |s| && OccursAt(s, pat, i);
        assert i != 0;
        OccursAtTail(s, pat, i - 1);
      }
    }
  }

  /** `pat` occurs in `s` starting at position `i`. */
  predicate OccursAt(s: string, pat: string, i: nat)
  {
    i + |pat| <= |s| && s[i..i + |pat|] == pat
  }

  /** `s.split('\n')`: the maximal newline-free segments, one more than there are newlines. */
  function SplitLines(s: string): (r: seq<string>)
    ensures |r| >= 1
    ensures forall k :: 0 <= k < |r| ==> '\n' !in r[k]
  {
    if s == [] then [""]
    else if s[0] == '\n' then [""] + SplitLines(s[1..])
    else
      var rest := SplitLines(s[1..]);
      [[s[0]] + rest[0]] + rest[1..]
  }

  /** `segs.join('\n')`. */
  function JoinLines(segs: seq<string>): string
  {
    if segs == [] then ""
    else if |segs| == 1 then segs[0]
    else segs[0] + "\n" + JoinLines(segs[1..])
  }

  /** Splitting loses nothing: joining the segments again gives the text back. */
  lemma {:induction false} JoinSplit(s: string)
    ensures JoinLines(SplitLines(s)) == s
  {
    if s != [] {
      var rest := SplitLines(s[1..]);
      JoinSplit(s[1..]);
      if s[0] == '\n' {
        assert SplitLines(s) == [""] + rest;
        assert ([""] + rest)[1..] == rest;
        assert s == "\n" + s[1..];
      } else {
        var segs := SplitLines(s);
        assert segs == [[s[0]] + rest[0]] + rest[1..];
        if |rest| == 1 {
          assert s == [s[0]] + s[1..];
        } else {
          assert segs[1..] == rest[1..];
          assert JoinLines(rest) == rest[0] + "\n" + JoinLines(rest[1..]);
          assert s == [s[0]] + s[1..];
        }
      }
    }
  }

  /** The segments are exactly those of the text: splitting a join of newline-free segments gives them back. */
  lemma {:induction false} SplitJoin(segs: seq<string>)
    requires |segs| >= 1
    requires forall k :: 0 <= k < |segs| ==> '\n' !in segs[k]
    ensures SplitLines(JoinLines(segs)) == segs
  {
    if |segs| == 1 {
      SplitNoNewline(segs[0]);
    } else {
      SplitJoin(segs[1..]);
      SplitPrefix(segs[0], JoinLines(segs[1..]));
      assert segs == [segs[0]] + segs[1..];
    }
  }

  lemma {:induction false} SplitNoNewline(s: string)
    requires '\n' !in s
    ensures SplitLines(s) == [s]
  {
    if s != [] {
      assert '\n' !in s[1..] by {
        forall k | 0 <= k < |s[1..]| ensures s[1..][k] != '\n' { assert s[1..][k] == s[k + 1]; }
      }
      SplitNoNewline(s[1..]);
      assert [s[0]] + s[1..] == s;
    }
  }

  lemma {:induction false} SplitPrefix(a: string, b: string)
    requires '\n' !in a
    ensures SplitLines(a + "\n" + b) == [a] + SplitLines(b)
  {
    if a == [] {
      assert a + "\n" + b == "\n" + b;
      assert ("\n" + b)[1..] == b;
    } else {
      assert (a + "\n" + b)[0] == a[0];
      assert (a + "\n" + b)[1..] == a[1..] + "\n" + b;
      assert '\n' !in a[1..] by {
        forall k | 0 <= k < |a[1..]| ensures a[1..][k] != '\n' { assert a[1..][k] == a[k + 1]; }
      }
      SplitPrefix(a[1..], b);
      assert [a[0]] + a[1..] == a;
    }
  }

  predicate IsDigit(c: char)
  {
    '0' <= c <= '9'
  }

  function DigitValue(c: char): nat
  {
    if IsDigit(c) then c as int - '0' as int else 0
  }

  /** The number a string of decimal digits denotes, most significant digit first. */
  function DecimalValue(s: string): nat
  {
    if s == [] then 0 else DecimalValue(s[..|s| - 1]) * 10 + DigitValue(s[|s| - 1])
  }

  /**
   * The decimal rendering of a natural number, as a template literal `${n}`
   * writes it: digits with no leading zero that denote `n`.
   */
  function NatToString(n: nat): (r: string)
    ensures |r| >= 1
    ensures forall i :: 0 <= i < |r| ==> IsDigit(r[i])
    ensures r[0] == '0' ==> n == 0
    ensures DecimalValue(r) == n
  {
    if n < 10 then [Digit(n)]
    else
      var p := NatToString(n / 10);
      var r := p + [Digit(n % 10)];
      assert r[..|r| - 1] == p;
      r
  }

  /** Distinct numbers render differently, so the line number makes a line id unique within a file. */
  lemma NatToStringInjective(a: nat, b: nat)
    requires NatToString(a) == NatToString(b)
    ensures a == b
  {
  }

  function Digit(d: nat): (c: char)
    requires d < 10
    ensures IsDigit(c) && DigitValue(c) == d
  {
    ('0' as int + d) as char
  }

  /** The UTF-16 code units of one character: two for a code point beyond the Basic Multilingual Plane. */
  function CodeUnits(c: char): nat
  {
    if c as int >= 0x1_0000 then 2 else 1
  }

  /** `s.length` in JavaScript, which counts UTF-16 code units rather than characters. */
  function Utf16Length(s: string): (n: nat)
    ensures |s| <= n <= 2 * |s|
  {
    if s == [] then 0 else CodeUnits(s[0]) + Utf16Length(s[1..])
  }

  /** The JavaScript length is the number of characters exactly when none lies beyond the Basic Multilingual Plane. */
  lemma {:induction false} Utf16LengthBmp(s: string)
    ensures Utf16Length(s) == |s| <==> forall i :: 0 <= i < |s| ==> CodeUnits(s[i]) == 1
  {
    if s != [] {
      Utf16LengthBmp(s[1..]);
      if Utf16Length(s) == |s| {
        assert CodeUnits(s[0]) == 1;
        forall i | 1 <= i < |s| ensures CodeUnits(s[i]) == 1 {
          assert s[1..][i - 1] == s[i];
        }
      }
      if forall i :: 0 <= i < |s| ==> CodeUnits(s[i]) == 1 {
        forall i | 0 <= i < |s[1..]| ensures CodeUnits(s[1..][i]) == 1 {
          assert s[1..][i] == s[i + 1];
        }
      }
    }
  }

  /**
   * The modelled lowercase map keeps the JavaScript length; `toLowerCase`
   * itself can change it (U+0130 becomes two code units), which is outside the model.
   */
  lemma {:induction false} Utf16LengthLower(s: string)
    ensures Utf16Length(Lower(s)) == Utf16Length(s)
  {
    if s != [] {
      Utf16LengthLower(s[1..]);
      assert Lower(s)[1..] == Lower(s[1..]);
    }
  }
}
