/** Which domain names the routing check accepts, and which of them it takes for the same. */
module RoutingNames {
  import opened Ascii
  import opened Options
  import opened PoolCleaning
  import opened Routing
  import opened RoutingMirror

  // ----- the key of a domain

  /** ASCII text with neither white space nor a dot at an end. */
  ghost predicate Bare(d: string) {
    && (forall i :: 0 <= i < |d| ==> d[i] < '\U{0080}')
    && (d != [] ==> !EndsName(d[0]) && !EndsName(d[|d| - 1]))
  }

  predicate EndsName(c: char) {
    '\t' <= c <= '\r' || c == ' ' || c == '.'
  }

  lemma BareKey(d: string, url: string -> Option<string>)
    requires Bare(d)
    ensures RouteDomainKey(d, url) == Lower(d)
  {
    TrimExactly(d);
  }

  lemma DottedKey(d: string, url: string -> Option<string>)
    requires Bare(d)
    ensures RouteDomainKey(['.'] + d, url) == Lower(d)
  {
    TrimExactly(['.'] + d);
    assert (['.'] + d)[1..] == d;
  }

  lemma EndDottedKey(d: string, url: string -> Option<string>)
    requires Bare(d)
    ensures RouteDomainKey(d + ['.'], url) == Lower(d)
  {
    TrimExactly(d + ['.']);
    assert (d + ['.'])[..|d|] == d;
    if d == [] {
      assert (d + ['.'])[1..] == d;
    } else {
      assert (d + ['.'])[0] == d[0];
    }
  }

  lemma BothDottedKey(d: string, url: string -> Option<string>)
    requires Bare(d)
    ensures RouteDomainKey(['.'] + d + ['.'], url) == Lower(d)
  {
    var dotted := ['.'] + d + ['.'];
    TrimExactly(dotted);
    assert dotted[1..] == d + ['.'] && (d + ['.'])[..|d|] == d;
  }

  /** One dot at either end does not matter, nor does case, and nothing else is overlooked:
      two domains share a key exactly when they are the same name in whatever case. */
  lemma SharedKeyExactly(a: string, b: string, url: string -> Option<string>)
    requires Bare(a) && Bare(b)
    ensures RouteDomainKey(a, url) == RouteDomainKey(['.'] + a, url)
         == RouteDomainKey(a + ['.'], url) == RouteDomainKey(['.'] + a + ['.'], url)
    ensures RouteDomainKey(a, url) == RouteDomainKey(b, url) <==> SameIgnoringCase(a, b)
  {
    BareKey(a, url);
    DottedKey(a, url);
    EndDottedKey(a, url);
    BothDottedKey(a, url);
    BareKey(b, url);
    LowerEqualExactly(a, b);
  }

  ghost predicate Blank(s: string) {
    forall i :: 0 <= i < |s| ==> '\t' <= s[i] <= '\r' || s[i] == ' '
  }

  lemma {:induction false} SkipsBlanksBefore(before: string, t: string)
    requires Blank(before) && (t == [] || !IsSpace(t[0]))
    ensures TrimStart(before + t) == t
    decreases |before|
  {
    if before == [] {
      assert before + t == t;
    } else {
      assert (before + t)[1..] == before[1..] + t;
      SkipsBlanksBefore(before[1..], t);
    }
  }

  lemma {:induction false} SkipsBlanksAfter(t: string, after: string)
    requires Blank(after) && (t == [] || !IsSpace(t[|t| - 1]))
    ensures TrimEnd(t + after) == t
    decreases |after|
  {
    if after == [] {
      assert t + after == t;
    } else {
      assert (t + after)[..|t + after| - 1] == t + after[..|after| - 1];
      SkipsBlanksAfter(t, after[..|after| - 1]);
    }
  }

  /** Nor do blanks around it matter. */
  lemma BlanksDoNotMatter(before: string, d: string, after: string, url: string -> Option<string>)
    requires Bare(d) && d != [] && Blank(before) && Blank(after)
    ensures RouteDomainKey(before + d + after, url) == RouteDomainKey(d, url)
  {
    assert before + d + after == before + (d + after);
    SkipsBlanksBefore(before, d + after);
    SkipsBlanksAfter(d, after);
    TrimExactly(d);
  }

  // ----- the labels of a text

  /** `s[a..b]` reaches from one dot, or an end of the text, to the next. */
  ghost predicate Segment(s: string, a: nat, b: nat) {
    && a <= b <= |s|
    && (forall i :: a <= i < b ==> s[i] != '.')
    && (a == 0 || s[a - 1] == '.') && (b == |s| || s[b] == '.')
  }

  /** A segment that ends before the last character of `s`. */
  lemma SegmentOfFront(s: string, a: nat, b: nat)
    requires s != [] && a <= b < |s|
    ensures Segment(s, a, b) <==> Segment(s[..|s| - 1], a, b) && (b == |s| - 1 ==> s[b] == '.')
    ensures s[..|s| - 1][a..b] == s[a..b]
  {
    var front := s[..|s| - 1];
    assert forall i :: 0 <= i < |front| ==> front[i] == s[i];
  }

  /** The last segment of a text that does not end in a dot. */
  lemma LastSegment(s: string, a: nat)
    requires s != [] && s[|s| - 1] != '.' && a < |s|
    ensures Segment(s, a, |s|) <==> Segment(s[..|s| - 1], a, |s| - 1)
    ensures s[a..|s|] == s[..|s| - 1][a..|s| - 1] + [s[|s| - 1]]
  {
    var front := s[..|s| - 1];
    assert forall i :: 0 <= i < |front| ==> front[i] == s[i];
  }

  lemma SplitStep(s: string, i: nat)
    requires s != [] && i < |Split(s)|
    ensures var (labels, c) := (Split(s[..|s| - 1]), s[|s| - 1]);
            && |Split(s)| == |labels| + (if c == '.' then 1 else 0)
            && (i == |Split(s)| - 1 ==> Split(s)[i] == if c == '.' then [] else labels[i] + [c])
            && (i < |Split(s)| - 1 ==> i < |labels| && Split(s)[i] == labels[i])
  {
  }

  lemma {:induction false} LabelIsSegment(s: string, i: nat) returns (a: nat, b: nat)
    requires i < |Split(s)|
    ensures Segment(s, a, b) && Split(s)[i] == s[a..b]
    ensures i == |Split(s)| - 1 <==> b == |s|
    decreases |s|
  {
    if s == [] {
      a, b := 0, 0;
    } else {
      SplitStep(s, i);
      if s[|s| - 1] == '.' && i == |Split(s)| - 1 {
        a, b := |s|, |s|;
      } else {
        a, b := LabelIsSegment(s[..|s| - 1], i);
        if i == |Split(s)| - 1 {
          LastSegment(s, a);
          b := |s|;
        } else {
          SegmentOfFront(s, a, b);
        }
      }
    }
  }

  lemma {:induction false} SegmentIsLabel(s: string, a: nat, b: nat) returns (i: nat)
    requires Segment(s, a, b)
    ensures i < |Split(s)| && Split(s)[i] == s[a..b]
    ensures i == |Split(s)| - 1 <==> b == |s|
    decreases |s|
  {
    if s == [] {
      i := 0;
    } else if a == |s| {
      i := |Split(s)| - 1;
      SplitStep(s, i);
    } else if b < |s| {
      SegmentOfFront(s, a, b);
      i := SegmentIsLabel(s[..|s| - 1], a, b);
      SplitStep(s, i);
    } else {
      assert s[|s| - 1] != '.';
      LastSegment(s, a);
      i := SegmentIsLabel(s[..|s| - 1], a, b - 1);
      SplitStep(s, i);
    }
  }

  /** The segment around a character that is not a dot. */
  lemma {:induction false} SegmentStart(s: string, i: nat) returns (a: nat)
    requires i < |s| && s[i] != '.'
    ensures a <= i && (forall j :: a <= j <= i ==> s[j] != '.') && (a == 0 || s[a - 1] == '.')
  {
    if i == 0 || s[i - 1] == '.' {
      a := i;
    } else {
      a := SegmentStart(s, i - 1);
    }
  }

  lemma {:induction false} SegmentEnd(s: string, i: nat) returns (b: nat)
    requires i < |s| && s[i] != '.'
    ensures i < b <= |s| && (forall j :: i <= j < b ==> s[j] != '.') && (b == |s| || s[b] == '.')
    decreases |s| - i
  {
    if i == |s| - 1 || s[i + 1] == '.' {
      b := i + 1;
    } else {
      b := SegmentEnd(s, i + 1);
    }
  }

  lemma {:induction false} ErroneousLabel(labels: seq<string>) returns (i: nat)
    requires FirstLabelError(labels).Some?
    ensures i < |labels| && LabelError(labels[i]) == FirstLabelError(labels)
    decreases |labels|
  {
    var front := labels[..|labels| - 1];
    if FirstLabelError(front).Some? {
      i := ErroneousLabel(front);
      assert labels[i] == front[i];
    } else {
      i := |labels| - 1;
    }
  }

  // ----- what is accepted

  predicate NameChar(c: char) {
    'a' <= c <= 'z' || '0' <= c <= '9' || c == '_' || c == '-' || c == '.'
  }

  /** Two dots together, or a dot at an end. */
  ghost predicate HasEmptyPart(k: string) {
    || (k != [] && (k[0] == '.' || k[|k| - 1] == '.'))
    || (exists i :: 0 <= i < |k| - 1 && k[i] == '.' && k[i + 1] == '.')
  }

  ghost predicate DotWithin(k: string, i: int) {
    exists j :: i <= j < i + 64 && 0 <= j < |k| && k[j] == '.'
  }

  /** 64 characters in a row without a dot. */
  ghost predicate HasLongPart(k: string) {
    exists i :: 0 <= i <= |k| - 64 && !DotWithin(k, i)
  }

  ghost predicate HasOddChar(k: string) {
    exists i :: 0 <= i < |k| && !NameChar(k[i])
  }

  ghost predicate GoodName(k: string) {
    1 <= |k| <= 253 && !HasOddChar(k) && !HasEmptyPart(k) && !HasLongPart(k)
  }

  lemma SegmentFits(s: string, a: nat, b: nat)
    requires FirstLabelError(Split(s)).None? && Segment(s, a, b)
    ensures 1 <= b - a <= 63
  {
    var i := SegmentIsLabel(s, a, b);
    NoErrorInAnyLabel(Split(s), i);
  }

  lemma AcceptedHasNoEmptyPart(s: string)
    requires FirstLabelError(Split(s)).None?
    ensures !HasEmptyPart(s)
  {
    if s != [] && s[0] == '.' {
      SegmentFits(s, 0, 0);
    }
    if s != [] && s[|s| - 1] == '.' {
      SegmentFits(s, |s|, |s|);
    }
    forall i | 0 <= i < |s| - 1 && s[i] == '.' ensures s[i + 1] != '.' {
      if s[i + 1] == '.' {
        SegmentFits(s, i + 1, i + 1);
      }
    }
  }

  lemma AcceptedHasNoLongPart(s: string)
    requires FirstLabelError(Split(s)).None?
    ensures !HasLongPart(s)
  {
    forall i | 0 <= i <= |s| - 64 ensures DotWithin(s, i) {
      if s[i] != '.' {
        var a := SegmentStart(s, i);
        var b := SegmentEnd(s, i);
        SegmentFits(s, a, b);
        assert b < i + 64 && s[b] == '.';
      }
    }
  }

  lemma AcceptedHasNoOddChar(s: string)
    requires IsLower(s) && FirstLabelError(Split(s)).None?
    ensures !HasOddChar(s)
  {
    forall i | 0 <= i < |s| ensures NameChar(s[i]) {
      assert s[i] in s;
      if s[i] != '.' {
        var n := CharOfALabel(s, s[i]);
        NoErrorInAnyLabel(Split(s), n);
      }
    }
  }

  /** Each complaint about a label is true of the text it came from. */
  lemma LabelErrorIsReal(s: string)
    requires s != [] && FirstLabelError(Split(s)).Some?
    ensures match FirstLabelError(Split(s)).value
            case EmptyLabel => HasEmptyPart(s)
            case LabelTooLong => HasLongPart(s)
            case BadCharacters => HasOddChar(s)
            case _ => false
  {
    var n := ErroneousLabel(Split(s));
    var a, b := LabelIsSegment(s, n);
    match FirstLabelError(Split(s)).value
    case EmptyLabel => EmptySegment(s, a);
    case LabelTooLong => assert !DotWithin(s, a);
    case BadCharacters =>
      var c :| c in Split(s)[n] && !IsLabelChar(c);
      var i :| 0 <= i < |Split(s)[n]| && Split(s)[n][i] == c;
      assert !NameChar(s[a + i]);
    case _ =>
  }

  lemma EmptySegment(s: string, a: nat)
    requires s != [] && Segment(s, a, a)
    ensures HasEmptyPart(s)
  {
    if 0 < a < |s| {
      assert s[a - 1] == '.' && s[a - 1 + 1] == '.';
    }
  }

  lemma LabelsGoodExactly(s: string)
    requires s != [] && IsLower(s)
    ensures FirstLabelError(Split(s)).None? <==> !HasOddChar(s) && !HasEmptyPart(s) && !HasLongPart(s)
  {
    if FirstLabelError(Split(s)).None? {
      AcceptedHasNoOddChar(s);
      AcceptedHasNoEmptyPart(s);
      AcceptedHasNoLongPart(s);
    } else {
      LabelErrorIsReal(s);
    }
  }

  lemma StarIsOdd(d: string)
    requires '*' in d
    ensures HasOddChar(Lower(d))
  {
    var i :| 0 <= i < |d| && d[i] == '*';
    assert !NameChar(Lower(d)[i]);
  }

  lemma KeyOfAscii(domain: string, url: string -> Option<string>)
    requires IsAscii(domain)
    ensures IsAscii(StripDots(Trim(domain)))
  {
    TrimStartKeeps(domain);
    TrimEndKeeps(TrimStart(domain));
    StripDotsKeeps(Trim(domain));
  }

  /** An ASCII domain is accepted exactly when its key is a good name: 1 to 253 letters,
      digits, '_', '-' and dots, with no dot at an end or beside another, and none of its
      parts longer than 63. A refusal names a fault the key has. */
  lemma AcceptedExactly(domain: string, url: string -> Option<string>)
    requires IsAscii(domain)
    ensures var (reason, k) := (RouteDomainError(domain, url), RouteDomainKey(domain, url));
            && (reason.None? <==> GoodName(k))
            && (reason == Some(EmptyDomain) ==> k == [])
            && (reason == Some(TooLong) ==> |k| > 253)
            && (reason == Some(EmptyLabel) ==> HasEmptyPart(k))
            && (reason == Some(LabelTooLong) ==> HasLongPart(k))
            && (reason == Some(BadCharacters) || reason == Some(Wildcard) ==> HasOddChar(k))
            && reason != Some(NotADomain) && reason != Some(WildcardInName)
  {
    KeyOfAscii(domain, url);
    var d := StripDots(Trim(domain));
    LowerIsLower(d);
    if '*' in d {
      StarIsOdd(d);
    } else if d != [] {
      LabelsGoodExactly(Lower(d));
      if FirstLabelError(Split(Lower(d))).Some? {
        LabelErrorIsReal(Lower(d));
      }
    }
  }

  /** So does the backend, which stores the key. */
  lemma BackendStoresGoodNames(domain: string, url: string -> Option<string>, idna: string -> Option<string>)
    requires IsAscii(domain)
    ensures var k := RouteDomainKey(domain, url);
            if GoodName(k) then NormalizeRouteDomain(domain, idna) == Ok(k)
            else NormalizeRouteDomain(domain, idna).Err?
  {
    AcceptedExactly(domain, url);
    SameDomainVerdict(domain, url, idna);
  }
}
