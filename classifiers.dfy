/**
 * The line and comment classifiers of utils.ts: the alert test on a review
 * comment, the main-record test on an XML line and the attribute lookup that
 * reads `vusd` and `vusdi` amounts out of a line.
 */
module Classifiers {
  import opened Wrappers
  import opened Text

  /** Comments that count as a clean review (SAFE_COMMENTS_SET), already trimmed and lowercased. */
  const SafeComments: set<string> := {"o.k.", "o.k", "ok", "legalizado", "legalizado oportunamente"}

  /** isAlertComment: a present, non-empty comment that is not one of the safe comments. */
  predicate IsAlertComment(comment: Option<string>)
  {
    match comment
    case None => false
    case Some(c) => c != "" && Lower(Trim(c)) !in SafeComments
  }

  /** A missing or empty comment is never an alert. */
  lemma NoCommentNoAlert()
    ensures !IsAlertComment(None) && !IsAlertComment(Some(""))
  {
  }

  /** A non-empty comment is an alert exactly when its lowercased, trimmed form is not a safe comment. */
  lemma {:induction false} AlertIff(c: string)
    requires c != ""
    ensures !IsAlertComment(Some(c)) <==> Trim(Lower(c)) in SafeComments
  {
    TrimLower(c);
  }

  /** Surrounding whitespace does not change the verdict on a non-empty comment. */
  lemma {:induction false} AlertIgnoresPadding(p: string, c: string, q: string)
    requires AllWhitespace(p) && AllWhitespace(q) && c != ""
    ensures IsAlertComment(Some(p + c + q)) == IsAlertComment(Some(c))
  {
    TrimPadded(p, c, q);
  }

  /** Two comments that differ only in letter case get the same verdict. */
  lemma {:induction false} AlertIgnoresCase(a: string, b: string)
    requires Lower(a) == Lower(b)
    ensures IsAlertComment(Some(a)) == IsAlertComment(Some(b))
  {
    TrimLower(a);
    TrimLower(b);
  }

  /** Unlike the empty comment, a comment made only of whitespace is reported as an alert. */
  lemma {:induction false} BlankCommentIsAlert(c: string)
    requires c != "" && AllWhitespace(c)
    ensures IsAlertComment(Some(c))
  {
    TrimEmptyIff(c);
  }

  /** Case folding of the `i` flag of a regular expression without the `u` flag on ASCII letters. */
  function AsciiFold(c: char): char
  {
    if 'A' <= c <= 'Z' then (c as int + 32) as char else c
  }

  /** The alternatives of the record-tag pattern, in lower case. */
  const RecordTags: seq<string> :=
    ["registro", "item", "declaracion", "factura", "comprobante", "cservicios", "operaciones"]

  /** `s` holds `<` at `i`, followed by `tag` up to letter case. */
  predicate TagAt(s: string, i: nat, tag: string)
  {
    i + 1 + |tag| <= |s| && s[i] == '<' && forall k :: 0 <= k < |tag| ==> AsciiFold(s[i + 1 + k]) == tag[k]
  }

  predicate HasRecordTag(s: string)
  {
    exists i, t :: 0 <= i < |s| && t in RecordTags && TagAt(s, i, t)
  }

  /** isMainRecordLine: the trimmed line contains an opening record tag. */
  predicate IsMainRecordLine(content: string)
  {
    HasRecordTag(Trim(content))
  }

  predicate Letters(t: string)
  {
    |t| >= 1 && forall k :: 0 <= k < |t| ==> 'a' <= t[k] <= 'z'
  }

  lemma TagLetters(t: string)
    requires t in RecordTags
    ensures Letters(t)
  {
  }

  lemma SliceTag(c: string, a: nat, b: nat, i: nat, t: string)
    requires a <= b <= |c| && TagAt(c[a..b], i, t)
    ensures TagAt(c, a + i, t)
  {
    forall k | 0 <= k < |t| ensures AsciiFold(c[a + i + 1 + k]) == t[k] {
      assert c[a..b][i + 1 + k] == c[a + i + 1 + k];
    }
  }

  lemma TagInside(c: string, a: nat, b: nat, i: nat, t: string)
    requires a <= b <= |c| && AllWhitespace(c[..a]) && AllWhitespace(c[b..])
    requires Letters(t) && TagAt(c, i, t)
    ensures a <= i && i + |t| < b && TagAt(c[a..b], i - a, t)
  {
    assert !IsJsWhitespace(c[i]);
    var last := i + 1 + (|t| - 1);
    assert AsciiFold(c[last]) == t[|t| - 1];
    assert !IsJsWhitespace(c[last]);
    forall k | 0 <= k < |t| ensures AsciiFold(c[a..b][i - a + 1 + k]) == t[k] {
      assert c[a..b][i - a + 1 + k] == c[i + 1 + k];
    }
  }

  /** A record tag never touches whitespace, so trimming the line first changes nothing. */
  lemma {:induction false} MainRecordIgnoresTrim(content: string)
    ensures IsMainRecordLine(content) <==> HasRecordTag(content)
  {
    var s := TrimStart(content);
    var r := TrimEnd(s);
    var a := |content| - |s|;
    var b := a + |r|;
    assert r == Trim(content);
    assert r == content[a..b];
    assert content[b..] == s[|r|..];
    if HasRecordTag(r) {
      var i, t :| 0 <= i < |r| && t in RecordTags && TagAt(r, i, t);
      SliceTag(content, a, b, i, t);
    }
    if HasRecordTag(content) {
      var i, t :| 0 <= i < |content| && t in RecordTags && TagAt(content, i, t);
      TagLetters(t);
      TagInside(content, a, b, i, t);
    }
  }

  lemma FoldLower(c: char, x: char)
    requires 'a' <= x <= 'z'
    ensures AsciiFold(LowerChar(c)) == x <==> AsciiFold(c) == x
  {
  }

  lemma TagAtLower(s: string, i: nat, t: string)
    requires Letters(t)
    ensures TagAt(Lower(s), i, t) <==> TagAt(s, i, t)
  {
    if i + 1 + |t| <= |s| {
      forall k | 0 <= k < |t| ensures AsciiFold(Lower(s)[i + 1 + k]) == t[k] <==> AsciiFold(s[i + 1 + k]) == t[k] {
        FoldLower(s[i + 1 + k], t[k]);
      }
    }
  }

  /** The record-tag test does not depend on letter case. */
  lemma {:induction false} MainRecordIgnoresCase(content: string)
    ensures IsMainRecordLine(Lower(content)) <==> IsMainRecordLine(content)
  {
    TrimLower(content);
    var s := Trim(content);
    var l := Lower(s);
    if HasRecordTag(s) {
      var i, t :| 0 <= i < |s| && t in RecordTags && TagAt(s, i, t);
      TagLetters(t);
      TagAtLower(s, i, t);
    }
    if HasRecordTag(l) {
      var i, t :| 0 <= i < |l| && t in RecordTags && TagAt(l, i, t);
      TagLetters(t);
      TagAtLower(s, i, t);
    }
  }

  /** The index of the first `"` in `s` at or after `j`, or `|s|` when there is none. */
  function QuoteFrom(s: string, j: nat): (e: nat)
    requires j <= |s|
    ensures j <= e <= |s|
    ensures e < |s| ==> s[e] == '"'
    ensures forall k :: j <= k < e ==> s[k] != '"'
    decreases |s| - j
  {
    if j == |s| || s[j] == '"' then j else QuoteFrom(s, j + 1)
  }

  /** `key="` occurs at `i`, the key matched up to letter case. */
  predicate KeyAt(s: string, key: string, i: nat)
  {
    && i + |key| + 2 <= |s|
    && (forall k :: 0 <= k < |key| ==> AsciiFold(s[i + k]) == key[k])
    && s[i + |key|] == '=' && s[i + |key| + 1] == '"'
  }

  /** The whole pattern `key="([^"]+)"` matches at `i`: at least one non-quote character, then a quote. */
  predicate PatternAt(s: string, key: string, i: nat)
  {
    KeyAt(s, key, i) && var e := QuoteFrom(s, i + |key| + 2); e < |s| && e > i + |key| + 2
  }

  /** The captured group of a match at `i`. */
  function ValueAt(s: string, key: string, i: nat): (v: string)
    requires PatternAt(s, key, i)
    ensures |v| >= 1 && '"' !in v
    ensures i + |key| + 2 + |v| < |s| && s[i + |key| + 2 + |v|] == '"'
    ensures v == s[i + |key| + 2 .. i + |key| + 2 + |v|]
  {
    var start := i + |key| + 2;
    var v := s[start..QuoteFrom(s, start)];
    assert forall k :: 0 <= k < |v| ==> v[k] == s[start + k];
    v
  }

  /** The leftmost match at or after `i`, as a left-to-right regular-expression search finds it. */
  function CaptureFrom(s: string, key: string, i: nat): Option<string>
    decreases |s| + 1 - i
  {
    if i > |s| then None
    else if PatternAt(s, key, i) then Some(ValueAt(s, key, i))
    else CaptureFrom(s, key, i + 1)
  }

  /** `s.match(/key="([^"]+)"/i)?.[1]`. */
  function Capture(s: string, key: string): Option<string>
  {
    CaptureFrom(s, key, 0)
  }

  predicate FirstPatternAt(s: string, key: string, i: nat)
  {
    PatternAt(s, key, i) && forall j :: 0 <= j < i ==> !PatternAt(s, key, j)
  }

  lemma {:induction false} CaptureFromSpec(s: string, key: string, i: nat)
    requires forall j :: 0 <= j < i ==> !PatternAt(s, key, j)
    ensures CaptureFrom(s, key, i) == None <==> forall j :: 0 <= j <= |s| ==> !PatternAt(s, key, j)
    ensures forall j :: 0 <= j <= |s| && FirstPatternAt(s, key, j) ==> CaptureFrom(s, key, i) == Some(ValueAt(s, key, j))
    decreases |s| + 1 - i
  {
    if i > |s| {
    } else if PatternAt(s, key, i) {
      assert FirstPatternAt(s, key, i);
    } else {
      CaptureFromSpec(s, key, i + 1);
    }
  }

  /**
   * The lookup finds nothing exactly when the pattern matches nowhere, and
   * otherwise returns the value of the leftmost match.
   */
  lemma CaptureSpec(s: string, key: string)
    ensures Capture(s, key) == None <==> forall i :: 0 <= i <= |s| ==> !PatternAt(s, key, i)
    ensures forall i :: 0 <= i <= |s| && FirstPatternAt(s, key, i) ==> Capture(s, key) == Some(ValueAt(s, key, i))
  {
    CaptureFromSpec(s, key, 0);
  }

  /** A `vusdi="…"` attribute is never read as `vusd`: the key must be followed by `=` at once. */
  lemma VusdiIsNotVusd(s: string, i: nat)
    requires i + 5 <= |s| && AsciiFold(s[i + 4]) == 'i'
    ensures !PatternAt(s, "vusd", i)
  {
  }

  /** An empty value `vusd=""` does not match at that position. */
  lemma EmptyValueDoesNotMatch(s: string, i: nat)
    requires i + 6 < |s| && s[i + 6] == '"'
    ensures !PatternAt(s, "vusd", i)
  {
  }

  /** The two amounts read from a line; a missing attribute reads as 0. */
  datatype XmlAmounts = XmlAmounts(vusd: real, vusdi: real)

  /** extractXmlAttributes, with `parseFloat` given as `parse`. */
  function ExtractXmlAttributes(content: string, parse: string -> real): XmlAmounts
  {
    XmlAmounts(
      match Capture(content, "vusd") case Some(v) => parse(v) case None => 0.0,
      match Capture(content, "vusdi") case Some(v) => parse(v) case None => 0.0)
  }

  /** An attribute whose pattern matches nowhere yields 0; one that matches yields the parse of its leftmost value. */
  lemma {:induction false} ExtractSpec(content: string, parse: string -> real, i: nat, k: nat)
    ensures (forall j :: 0 <= j <= |content| ==> !PatternAt(content, "vusd", j))
            ==> ExtractXmlAttributes(content, parse).vusd == 0.0
    ensures (forall j :: 0 <= j <= |content| ==> !PatternAt(content, "vusdi", j))
            ==> ExtractXmlAttributes(content, parse).vusdi == 0.0
    ensures i <= |content| && FirstPatternAt(content, "vusd", i)
            ==> ExtractXmlAttributes(content, parse).vusd == parse(ValueAt(content, "vusd", i))
    ensures k <= |content| && FirstPatternAt(content, "vusdi", k)
            ==> ExtractXmlAttributes(content, parse).vusdi == parse(ValueAt(content, "vusdi", k))
  {
    CaptureSpec(content, "vusd");
    CaptureSpec(content, "vusdi");
  }
}
