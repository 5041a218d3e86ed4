/** What uncommenting leaves.  Reading it again, by itself or as an argument in a joined list, gives
    it back, with one exception. */
module Uncomment {
  import opened ConfParse

  // ----- The same text in two strings

  predicate Same(str: string, other: string, i: nat, shift: int) {
    i < |str| && 0 <= i + shift < |other| && other[i + shift] == str[i]
  }

  /** Positions `[from, to)` of `str` are found in `other`, `shift` places further on. */
  ghost predicate Copy(str: string, other: string, from: nat, to: nat, shift: int) {
    to <= |str| && forall i :: from <= i < to ==> Same(str, other, i, shift)
  }

  /** All of `str` from `from` on is the end of `other`. */
  ghost predicate Tail(str: string, other: string, from: nat, shift: int) {
    |other| == |str| + shift && from + shift >= 0 && forall i :: from <= i < |str| ==> Same(str, other, i, shift)
  }

  lemma CopyPart(str: string, other: string, from: nat, to: nat, shift: int, a: nat, b: nat)
    requires Copy(str, other, from, to, shift) && from <= a && b <= to
    ensures Copy(str, other, a, b, shift)
  {
  }

  lemma TailPart(str: string, other: string, from: nat, shift: int, a: nat)
    requires Tail(str, other, from, shift) && from <= a
    ensures Tail(str, other, a, shift)
  {
  }

  // ----- Skipping looks no further than where it stops

  lemma {:induction false} LineEndInside(str: string, s: nat, other: string, shift: int)
    requires LineEnd(str, s) < |str| && s + shift >= 0 && Copy(str, other, s, LineEnd(str, s) + 1, shift)
    ensures LineEnd(other, s + shift) == LineEnd(str, s) + shift
    decreases |str| - s
  {
    assert Same(str, other, s, shift) && Same(str, other, s + 1, shift);
    if s + 1 < |str| && str[s] != '\n' && str[s] != '\r' {
      LineEndInside(str, s + 1, other, shift);
    }
  }

  lemma {:induction false} StarEndInside(str: string, s: nat, other: string, shift: int)
    requires StarEnd(str, s) < |str| && s + shift >= 0 && Copy(str, other, s, StarEnd(str, s) + 1, shift)
    ensures StarEnd(other, s + shift) == StarEnd(str, s) + shift
    decreases |str| - s
  {
    assert Same(str, other, s, shift) && Same(str, other, s + 1, shift) && Same(str, other, s + 2, shift);
    if s + 2 < |str| && (str[s] != '*' || str[s + 1] != '/') {
      StarEndInside(str, s + 1, other, shift);
    }
  }

  lemma SkipCommentInside(str: string, s: nat, other: string, shift: int)
    requires StartsComment(str, s) && SkipComment(str, s) < |str| && s + shift >= 0
    requires Copy(str, other, s, SkipComment(str, s) + 1, shift)
    ensures StartsComment(other, s + shift) && SkipComment(other, s + shift) == SkipComment(str, s) + shift
  {
    hide LineEnd, StarEnd;
    var c := SkipComment(str, s);
    assert s + 2 <= c;
    assert Same(str, other, s, shift) && Same(str, other, s + 1, shift);
    CopyPart(str, other, s, c + 1, shift, s + 2, c + 1);
    if str[s + 1] == '/' {
      LineEndInside(str, s + 2, other, shift);
    } else {
      StarEndInside(str, s + 2, other, shift);
    }
  }

  lemma {:induction false} SkipAngleInside(str: string, s: nat, other: string, shift: int)
    requires SkipAngle(str, s) < |str| && s + shift >= 0 && Copy(str, other, s, SkipAngle(str, s), shift)
    ensures s < SkipAngle(str, s) && SkipAngle(other, s + shift) == SkipAngle(str, s) + shift
    decreases |str| - s
  {
    hide SkipComment;
    var e := SkipAngle(str, s);
    if str[s] != '>' {
      var next := if StartsComment(str, s) then SkipComment(str, s) else s + 1;
      assert SkipAngle(str, next) == e;
      CopyPart(str, other, s, e, shift, next, e);
      SkipAngleInside(str, next, other, shift);
      assert Same(str, other, s, shift) && Same(str, other, s + 1, shift);
      if StartsComment(str, s) {
        CopyPart(str, other, s, e, shift, s, next + 1);
        SkipCommentInside(str, s, other, shift);
      }
    } else {
      assert Same(str, other, s, shift);
    }
  }

  lemma SkipBackslashInside(str: string, s: nat, other: string, shift: int, e: nat)
    requires s < |str| && str[s] == '\\' && s + shift >= 0
    requires SkipBackslash(str, s) <= e < |str| && Copy(str, other, s, e, shift)
    requires (s + 1 < |str| && str[s + 1] == '<') || SkipBackslash(str, s) < e
    ensures s + shift < |other| && other[s + shift] == '\\'
    ensures SkipBackslash(other, s + shift) == SkipBackslash(str, s) + shift
  {
    hide SkipAngle;
    var b := SkipBackslash(str, s);
    assert s + 2 <= b;
    assert Same(str, other, s, shift) && Same(str, other, s + 1, shift);
    if str[s + 1] == '<' {
      CopyPart(str, other, s, e, shift, s + 2, b);
      SkipAngleInside(str, s + 2, other, shift);
    } else {
      assert Same(str, other, s + 2, shift);
    }
  }

  lemma {:induction false} DoubleQuoteInside(str: string, s: nat, other: string, shift: int)
    requires DoubleQuoteEnd(str, s) < |str| && s + shift >= 0 && Copy(str, other, s, DoubleQuoteEnd(str, s), shift)
    ensures s < DoubleQuoteEnd(str, s) && DoubleQuoteEnd(other, s + shift) == DoubleQuoteEnd(str, s) + shift
    decreases |str| - s
  {
    hide SkipBackslash;
    var e := DoubleQuoteEnd(str, s);
    if str[s] == '\"' {
      assert Same(str, other, s, shift);
    } else {
      var next := if str[s] == '\\' then SkipBackslash(str, s) else s + 1;
      CopyNext(str, s, next, e, other, shift);
      DoubleQuoteInside(str, next, other, shift);
      assert Same(str, other, s, shift);
      if str[s] == '\\' {
        SkipBackslashInside(str, s, other, shift, e);
      }
    }
  }

  lemma CopyNext(str: string, s: nat, next: nat, e: nat, other: string, shift: int)
    requires s <= next && Copy(str, other, s, e, shift)
    ensures Copy(str, other, next, e, shift)
  {
  }

  lemma {:induction false} SingleQuoteInside(str: string, s: nat, other: string, shift: int)
    requires SingleQuoteEnd(str, s) < |str| && s + shift >= 0 && Copy(str, other, s, SingleQuoteEnd(str, s), shift)
    ensures s < SingleQuoteEnd(str, s) && SingleQuoteEnd(other, s + shift) == SingleQuoteEnd(str, s) + shift
    decreases |str| - s
  {
    if str[s] != '\'' {
      SingleQuoteInside(str, s + 1, other, shift);
    }
    assert Same(str, other, s, shift);
  }

  // ----- Skipping at the end of the text depends on that end only

  lemma {:induction false} LineEndTail(str: string, s: nat, other: string, shift: int)
    requires Tail(str, other, s, shift)
    ensures LineEnd(other, s + shift) == LineEnd(str, s) + shift
    decreases |str| - s
  {
    if s + 1 < |str| {
      assert Same(str, other, s, shift) && Same(str, other, s + 1, shift);
      TailPart(str, other, s, shift, s + 1);
      if str[s] != '\n' && str[s] != '\r' {
        LineEndTail(str, s + 1, other, shift);
      }
    }
  }

  lemma {:induction false} StarEndTail(str: string, s: nat, other: string, shift: int)
    requires Tail(str, other, s, shift)
    ensures StarEnd(other, s + shift) == StarEnd(str, s) + shift
    decreases |str| - s
  {
    if s + 2 < |str| {
      assert Same(str, other, s, shift) && Same(str, other, s + 1, shift);
      TailPart(str, other, s, shift, s + 1);
      if str[s] != '*' || str[s + 1] != '/' {
        StarEndTail(str, s + 1, other, shift);
      }
    }
  }

  lemma CommentTail(str: string, s: nat, other: string, shift: int)
    requires Tail(str, other, s, shift)
    ensures StartsComment(other, s + shift) <==> StartsComment(str, s)
    ensures StartsComment(str, s) ==> SkipComment(other, s + shift) == SkipComment(str, s) + shift
  {
    hide LineEnd, StarEnd;
    if s + 1 < |str| {
      assert Same(str, other, s, shift) && Same(str, other, s + 1, shift);
      TailPart(str, other, s, shift, s + 2);
      LineEndTail(str, s + 2, other, shift);
      StarEndTail(str, s + 2, other, shift);
    }
  }

  lemma {:induction false} SkipAngleTail(str: string, s: nat, other: string, shift: int)
    requires Tail(str, other, s, shift)
    ensures SkipAngle(other, s + shift) == SkipAngle(str, s) + shift
    decreases |str| - s
  {
    hide SkipComment, StartsComment;
    assert s < |str| ==> Same(str, other, s, shift);
    if s < |str| && str[s] != '>' {
      CommentTail(str, s, other, shift);
      var next := if StartsComment(str, s) then SkipComment(str, s) else s + 1;
      TailPart(str, other, s, shift, next);
      SkipAngleTail(str, next, other, shift);
    }
  }

  lemma SkipBackslashTail(str: string, s: nat, other: string, shift: int)
    requires Tail(str, other, s, shift) && s < |str| && str[s] == '\\'
    ensures other[s + shift] == '\\' && SkipBackslash(other, s + shift) == SkipBackslash(str, s) + shift
  {
    hide SkipAngle;
    assert Same(str, other, s, shift);
    if s + 1 < |str| {
      assert Same(str, other, s + 1, shift);
      TailPart(str, other, s, shift, s + 2);
      SkipAngleTail(str, s + 2, other, shift);
      if s + 2 < |str| {
        assert Same(str, other, s + 2, shift);
      }
    }
  }

  lemma {:induction false} DoubleQuoteTail(str: string, s: nat, other: string, shift: int)
    requires Tail(str, other, s, shift)
    ensures DoubleQuoteEnd(other, s + shift) == DoubleQuoteEnd(str, s) + shift
    decreases |str| - s
  {
    hide SkipBackslash;
    assert s < |str| ==> Same(str, other, s, shift);
    if s < |str| && str[s] != '\"' {
      if str[s] == '\\' {
        SkipBackslashTail(str, s, other, shift);
      }
      var next := if str[s] == '\\' then SkipBackslash(str, s) else s + 1;
      TailPart(str, other, s, shift, next);
      DoubleQuoteTail(str, next, other, shift);
    }
  }

  lemma {:induction false} SingleQuoteTail(str: string, s: nat, other: string, shift: int)
    requires Tail(str, other, s, shift)
    ensures SingleQuoteEnd(other, s + shift) == SingleQuoteEnd(str, s) + shift
    decreases |str| - s
  {
    assert s < |str| ==> Same(str, other, s, shift);
    if s < |str| && str[s] != '\'' {
      TailPart(str, other, s, shift, s + 1);
      SingleQuoteTail(str, s + 1, other, shift);
    }
  }

  // ----- One piece of text

  predicate AtText(str: string, s: nat) {
    s < |str| && !IsSpace(str[s]) && !StartsComment(str, s)
  }

  /** What may follow in `other` where a piece that ended at `e` ends there. */
  predicate Next(str: string, e: nat, other: string, k: nat) {
    k == |other| || (k < |other| && (other[k] == ' ' || other[k] == ',' || (e < |str| && other[k] == str[e])))
  }

  lemma TextTail(str: string, s: nat, other: string, shift: int)
    requires AtText(str, s) && Tail(str, other, s, shift)
    ensures AtText(other, s + shift) && TextEnd(other, s + shift) == TextEnd(str, s) + shift
  {
    hide SkipBackslash, DoubleQuoteEnd, SingleQuoteEnd;
    CommentTail(str, s, other, shift);
    assert Same(str, other, s, shift);
    TailPart(str, other, s, shift, s + 1);
    SingleQuoteTail(str, s + 1, other, shift);
    DoubleQuoteTail(str, s + 1, other, shift);
    if str[s] == '\\' {
      SkipBackslashTail(str, s, other, shift);
    }
    if s + 1 < |str| {
      assert Same(str, other, s + 1, shift);
    }
  }

  lemma TextInside(str: string, s: nat, other: string, shift: int)
    requires AtText(str, s) && TextEnd(str, s) < |str| && s + shift >= 0
    requires Copy(str, other, s, TextEnd(str, s), shift) && Next(str, TextEnd(str, s), other, TextEnd(str, s) + shift)
    ensures AtText(other, s + shift) && TextEnd(other, s + shift) == TextEnd(str, s) + shift
  {
    hide SkipBackslash, DoubleQuoteEnd, SingleQuoteEnd;
    var e := TextEnd(str, s);
    assert Same(str, other, s, shift);
    assert s + 1 < e ==> Same(str, other, s + 1, shift);
    if str[s] == '\'' {
      CopyPart(str, other, s, e, shift, s + 1, e);
      SingleQuoteInside(str, s + 1, other, shift);
    } else if str[s] == '\"' {
      CopyPart(str, other, s, e, shift, s + 1, e);
      DoubleQuoteInside(str, s + 1, other, shift);
    } else if str[s] == '\\' && str[s + 1] == '<' {
      BackslashLong(str, s);
      SkipBackslashInside(str, s, other, shift, e);
    }
  }

  lemma BackslashLong(str: string, s: nat)
    requires s + 1 < |str| && str[s] == '\\' && str[s + 1] == '<'
    ensures SkipBackslash(str, s) >= s + 2
  {
  }

  // ----- The scan, step by step

  function Init(str: string, i: nat): Scan {
    var s := SkipCommentSpace(str, i);
    Scan(s, s, s, false, "")
  }

  function Nth(str: string, i: nat, comma: bool, n: nat): Scan {
    if n == 0 then Init(str, i) else
      var st := Nth(str, i, comma, n - 1);
      if ScanDone(str, comma, st.s) then st else ScanStep(str, st)
  }

  /** What a scan has kept so far. */
  function Out(str: string, st: Scan): string {
    st.sa + Sub(str, st.left, st.right)
  }

  /** Between the text kept and the scan there are only spaces, or a comment was seen. */
  ghost predicate Tidy(str: string, st: Scan) {
    && st.left <= st.right <= st.s
    && (!st.closed ==> forall i :: st.right <= i < st.s && i < |str| ==> IsSpace(str[i]))
    && (st.left == st.right ==> st.left >= |str| || (!st.closed && AtText(str, st.s) && st.s == st.left))
  }

  lemma {:induction false} SkipsToText(str: string, s: nat)
    ensures SkipCommentSpace(str, s) >= |str| || AtText(str, SkipCommentSpace(str, s))
    decreases |str| - s
  {
    if s < |str| {
      if IsSpace(str[s]) {
        SkipsToText(str, s + 1);
      } else if StartsComment(str, s) {
        SkipsToText(str, SkipComment(str, s));
      }
    }
  }

  lemma StepTidy(str: string, st: Scan)
    requires Tidy(str, st) && st.s < |str|
    ensures Tidy(str, ScanStep(str, st))
  {
    hide TextEnd, SkipComment;
  }

  lemma {:induction false} NthTidy(str: string, i: nat, comma: bool, n: nat)
    ensures Tidy(str, Nth(str, i, comma, n))
  {
    hide TextEnd, SkipComment, SkipCommentSpace, ScanStep, AtText;
    if n == 0 {
      SkipsToText(str, i);
    } else {
      NthTidy(str, i, comma, n - 1);
      var st := Nth(str, i, comma, n - 1);
      hide Tidy;
      if !ScanDone(str, comma, st.s) {
        StepTidy(str, st);
      }
    }
  }

  /** What a piece of text adds. */
  function Gap(str: string, st: Scan): string {
    if st.closed then " " else Sub(str, st.right, st.s)
  }

  lemma TextStep(str: string, st: Scan)
    requires Tidy(str, st) && AtText(str, st.s) && TextEnd(str, st.s) <= |str|
    ensures var next := ScanStep(str, st); var e := TextEnd(str, st.s);
            && next.right == next.s == e && !next.closed && next.left < e
            && Out(str, next) == Out(str, st) + Gap(str, st) + str[st.s..e]
  {
    hide TextEnd;
    var e := TextEnd(str, st.s);
    if !st.closed {
      assert str[st.left..e] == str[st.left..st.right] + str[st.right..st.s] + str[st.s..e];
    }
  }

  /** From `base` on `other` holds what the scan has kept, and goes on as the result of the scan
      would, or as a list does. */
  ghost predicate Follows(str: string, st: Scan, other: string, base: nat) {
    var j := base + |Out(str, st)|;
    && j <= |other| && other[base..j] == Out(str, st)
    && (j == |other| || other[j] == ' ' || other[j] == ','
        || (!st.closed && st.right < |str| && other[j] == str[st.right]))
    && (st.right >= |str| ==> j == |other|)
  }

  lemma FollowsBack(str: string, st: Scan, other: string, base: nat)
    requires Tidy(str, st) && st.s < |str| && ScanStep(str, st).right <= |str|
    requires Follows(str, ScanStep(str, st), other, base)
    ensures Follows(str, st, other, base) && st.right <= |str|
  {
    hide TextEnd, SkipComment, Gap;
    if AtText(str, st.s) {
      TextStep(str, st);
      GapStarts(str, st);
      var e := TextEnd(str, st.s);
      var more := Gap(str, st) + str[st.s..e];
      PrefixOf(other, base, Out(str, st), more);
    }
  }

  lemma PrefixOf(other: string, base: nat, a: string, b: string)
    requires At(other, base, a + b) && b != ""
    ensures base + |a| < |other| && other[base..base + |a|] == a && other[base + |a|] == b[0]
  {
    AtSplit(other, base, a, b);
    AtIndex(other, base + |a|, b, 0);
  }

  /** A piece and what goes before it begin as the text does, or with a space. */
  lemma GapStarts(str: string, st: Scan)
    requires Tidy(str, st) && AtText(str, st.s) && TextEnd(str, st.s) <= |str|
    ensures var more := Gap(str, st) + str[st.s..TextEnd(str, st.s)];
            more != "" && (more[0] == ' ' || (!st.closed && st.right < |str| && more[0] == str[st.right]))
  {
    hide TextEnd, AtText;
  }

  // ----- The second scan follows the first

  /** A scan that began at `base` and has kept all up to `j`. */
  function Second(base: nat, j: nat): Scan {
    Scan(j, base, j, false, "")
  }

  lemma ScanAllNext(str: string, comma: bool, st: Scan)
    requires !ScanDone(str, comma, st.s)
    ensures ScanAll(str, comma, st) == ScanAll(str, comma, ScanStep(str, st))
  {
  }

  lemma ScanAllDone(str: string, comma: bool, st: Scan)
    requires ScanDone(str, comma, st.s)
    ensures ScanAll(str, comma, st) == st
  {
  }

  ghost predicate Spaces(s: string) {
    forall i :: 0 <= i < |s| ==> IsSpace(s[i])
  }

  lemma {:induction false} OverSpaces(other: string, comma: bool, st: Scan, gap: string)
    requires At(other, st.s, gap) && Spaces(gap)
    ensures ScanAll(other, comma, st) == ScanAll(other, comma, st.(s := st.s + |gap|))
    decreases |gap|
  {
    hide ScanAll, At;
    if gap != "" {
      assert gap == [gap[0]] + gap[1..];
      AtSplit(other, st.s, [gap[0]], gap[1..]);
      AtIndex(other, st.s, [gap[0]], 0);
      AtInside(other, st.s, [gap[0]]);
      ScanAllNext(other, comma, st);
      OverSpaces(other, comma, st.(s := st.s + 1), gap[1..]);
    }
  }

  lemma AtInside(str: string, i: nat, piece: string)
    requires At(str, i, piece)
    ensures i + |piece| <= |str|
  {
  }

  /** One piece of text on, the second scan is where the result of the first goes on. */
  lemma Advance(str: string, comma: bool, st: Scan, other: string, base: nat, comma': bool)
    requires Tidy(str, st) && AtText(str, st.s) && TextEnd(str, st.s) <= |str|
    requires !ScanDone(str, comma, st.s) && (comma' ==> comma)
    requires Follows(str, ScanStep(str, st), other, base)
    ensures ScanAll(other, comma', Second(base, base + |Out(str, st)|))
        == ScanAll(other, comma', Second(base, base + |Out(str, ScanStep(str, st))|))
    ensures AtText(other, base + |Out(str, st)| + |Gap(str, st)|)
  {
    hide *;
    var j, gap := base + |Out(str, st)|, Gap(str, st);
    Layout(str, st, other, base);
    GapSpaces(str, st);
    OverSpaces(other, comma', Second(base, j), gap);
    AdvanceText(str, st, other, base);
    NotDone(str, comma, st.s, other, comma', j + |gap| - st.s);
    AdvanceOne(other, comma', base, j + |gap|, j);
  }

  lemma NotDone(str: string, comma: bool, s: nat, other: string, comma': bool, shift: int)
    requires AtText(str, s) && !ScanDone(str, comma, s) && (comma' ==> comma)
    requires Copy(str, other, s, TextEnd(str, s), shift) && s + shift >= 0
    ensures !ScanDone(other, comma', s + shift)
  {
    hide TextEnd, StartsComment;
    assert Same(str, other, s, shift);
  }

  lemma AdvanceText(str: string, st: Scan, other: string, base: nat)
    requires Tidy(str, st) && AtText(str, st.s) && TextEnd(str, st.s) <= |str|
    requires Follows(str, ScanStep(str, st), other, base)
    ensures var k := base + |Out(str, st)| + |Gap(str, st)|;
            AtText(other, k) && TextEnd(other, k) == base + |Out(str, ScanStep(str, st))| <= |other|
  {
    hide ScanAll, TextEnd, AtText, Gap, Tidy, Follows, ScanStep, IsSpace, Out;
    TextStep(str, st);
    Layout(str, st, other, base);
    var k := base + |Out(str, st)| + |Gap(str, st)|;
    SameText(str, st.s, TextEnd(str, st.s), other, base, k - st.s, ScanStep(str, st));
  }

  lemma AdvanceOne(other: string, comma: bool, base: nat, k: nat, j: nat)
    requires AtText(other, k) && !ScanDone(other, comma, k)
    ensures ScanAll(other, comma, Scan(k, base, j, false, "")) == ScanAll(other, comma, Second(base, TextEnd(other, k)))
    ensures Second(base, j).(s := k) == Scan(k, base, j, false, "")
  {
    hide ScanAll, TextEnd, ScanDone;
    ScanAllNext(other, comma, Scan(k, base, j, false, ""));
    SecondStep(other, base, k, j);
  }

  lemma SecondStep(other: string, base: nat, k: nat, j: nat)
    requires AtText(other, k)
    ensures ScanStep(other, Scan(k, base, j, false, "")) == Second(base, TextEnd(other, k))
  {
    hide TextEnd;
  }

  /** Where the parts of the result are. */
  lemma Layout(str: string, st: Scan, other: string, base: nat)
    requires Tidy(str, st) && AtText(str, st.s) && TextEnd(str, st.s) <= |str|
    requires Follows(str, ScanStep(str, st), other, base)
    ensures var j, e := base + |Out(str, st)|, TextEnd(str, st.s); var shift := j + |Gap(str, st)| - st.s;
            && Second(base, j).s == j && st.s + shift >= 0 && e + shift <= |other|
            && At(other, j, Gap(str, st)) && Copy(str, other, st.s, e, shift)
  {
    hide TextEnd, AtText, Gap;
    TextStep(str, st);
    var out, gap, e := Out(str, st), Gap(str, st), TextEnd(str, st.s);
    var piece := str[st.s..e];
    AtSplit(other, base, out + gap, piece);
    AtSplit(other, base, out, gap);
    CopyAt(str, st.s, e, other, base + |out| + |gap|);
  }

  lemma CopyAt(str: string, s: nat, e: nat, other: string, k: nat)
    requires s <= e <= |str| && At(other, k, str[s..e])
    ensures Copy(str, other, s, e, k - s)
  {
    var shift := k - s;
    forall i | s <= i < e ensures Same(str, other, i, shift) {
      AtIndex(other, k, str[s..e], i - s);
    }
  }

  lemma GapSpaces(str: string, st: Scan)
    requires Tidy(str, st) && AtText(str, st.s)
    ensures Spaces(Gap(str, st))
  {
    hide StartsComment;
  }

  lemma SameText(str: string, s: nat, e: nat, other: string, base: nat, shift: int, next: Scan)
    requires AtText(str, s) && e == TextEnd(str, s) <= |str| && s + shift >= 0 && e + shift <= |other|
    requires Copy(str, other, s, e, shift)
    requires next.right == e && !next.closed && e + shift == base + |Out(str, next)| && Follows(str, next, other, base)
    ensures AtText(other, s + shift) && TextEnd(other, s + shift) == e + shift
  {
    hide AtText, TextEnd;
    if e < |str| {
      TextInside(str, s, other, shift);
    } else {
      TextTail(str, s, other, shift);
    }
  }

  lemma {:induction false} Simulate(str: string, i: nat, comma: bool, n: nat, other: string, base: nat, comma': bool)
    requires Nth(str, i, comma, n).right <= |str| && Follows(str, Nth(str, i, comma, n), other, base)
    requires comma' ==> comma
    ensures ScanAll(other, comma', Second(base, base))
        == ScanAll(other, comma', Second(base, base + |Out(str, Nth(str, i, comma, n))|))
  {
    hide ScanAll, TextEnd, AtText, SkipCommentSpace, Follows, Tidy;
    NthTidy(str, i, comma, n);
    if n == 0 {
      assert Out(str, Init(str, i)) == "";
    } else {
      var st := Nth(str, i, comma, n - 1);
      NthTidy(str, i, comma, n - 1);
      if !ScanDone(str, comma, st.s) {
        FollowsBack(str, st, other, base);
        Simulate(str, i, comma, n - 1, other, base, comma');
        if AtText(str, st.s) {
          TextFits(str, st);
          Advance(str, comma, st, other, base, comma');
        } else {
          NoText(str, st);
        }
      } else {
        Simulate(str, i, comma, n - 1, other, base, comma');
      }
    }
  }

  lemma TextFits(str: string, st: Scan)
    requires AtText(str, st.s) && ScanStep(str, st).right <= |str|
    ensures TextEnd(str, st.s) <= |str|
  {
    hide TextEnd;
  }

  lemma NoText(str: string, st: Scan)
    requires st.s < |str| && !AtText(str, st.s)
    ensures Out(str, ScanStep(str, st)) == Out(str, st)
  {
    hide TextEnd, SkipComment;
  }

  // ----- The whole scan

  lemma {:induction false} NthIsScan(str: string, i: nat, comma: bool, n: nat)
    ensures ScanAll(str, comma, Init(str, i)) == ScanAll(str, comma, Nth(str, i, comma, n))
    ensures Nth(str, i, comma, n).s >= n || ScanDone(str, comma, Nth(str, i, comma, n).s)
  {
    hide ScanAll, ScanStep, Init, StartsComment;
    if n > 0 {
      NthIsScan(str, i, comma, n - 1);
      var st := Nth(str, i, comma, n - 1);
      if !ScanDone(str, comma, st.s) {
        ScanAllNext(str, comma, st);
      }
    }
  }

  function Final(str: string, i: nat, comma: bool): Scan {
    Nth(str, i, comma, |str|)
  }

  lemma UncommentedIs(str: string, i: nat, comma: bool)
    ensures Uncommented(str, i, comma) == (Final(str, i, comma).s, Out(str, Final(str, i, comma)))
    ensures Final(str, i, comma) == ScanAll(str, comma, Init(str, i))
    ensures ScanDone(str, comma, Final(str, i, comma).s) && Tidy(str, Final(str, i, comma))
  {
    hide ScanAll, Nth, Tidy;
    NthIsScan(str, i, comma, |str|);
    ScanAllDone(str, comma, Final(str, i, comma));
    NthTidy(str, i, comma, |str|);
  }

  // ----- Texts that break off

  /** An escape begins at `s` that is open where the text ends, in a comment whose end would be
      behind that: the scan believes the piece to be longer than the text, and drops it. */
  predicate BreaksOff(str: string, s: nat) {
    s + 1 < |str| && str[s] == '\\' && str[s + 1] == '<' && SkipAngle(str, s + 2) > |str|
  }

  /** A piece from `s` on breaks off, with a comment somewhere between it and the first text;
      `text` and `joined` tell whether text, and a comment behind text, were met before `s`. */
  predicate Spoiled(str: string, s: nat, comma: bool, text: bool, joined: bool)
    decreases |str| - s
  {
    if ScanDone(str, comma, s) then false
    else if IsSpace(str[s]) then Spoiled(str, s + 1, comma, text, joined)
    else if StartsComment(str, s) then Spoiled(str, SkipComment(str, s), comma, text, joined || text)
    else if BreaksOff(str, s) then joined
    else Spoiled(str, TextEnd(str, s), comma, true, joined)
  }

  lemma {:induction false} QuoteInside(str: string, s: nat)
    ensures DoubleQuoteEnd(str, s) <= |str| && SingleQuoteEnd(str, s) <= |str|
    decreases |str| - s
  {
    if s < |str| {
      hide SkipBackslash;
      QuoteInside(str, s + 1);
      if str[s] == '\\' {
        QuoteInside(str, SkipBackslash(str, s));
      }
    }
  }

  lemma PieceInside(str: string, s: nat)
    requires s < |str|
    ensures TextEnd(str, s) > |str| <==> BreaksOff(str, s)
  {
    hide DoubleQuoteEnd, SingleQuoteEnd, SkipAngle;
    QuoteInside(str, s + 1);
  }

  /** The predicate on the text and the state of the scan agree. */
  lemma {:induction false} SpoiledScan(str: string, comma: bool, st: Scan)
    requires Tidy(str, st) && st.right <= |str|
    ensures var e := ScanAll(str, comma, st);
            Spoiled(str, st.s, comma, st.left < st.right, st.sa != "" || st.closed) <==> e.right > |str| && e.sa != ""
    decreases |str| - st.s
  {
    hide TextEnd, SkipComment, BreaksOff, Tidy, ScanAll;
    if ScanDone(str, comma, st.s) {
      ScanAllDone(str, comma, st);
    } else {
      var next := ScanStep(str, st);
      ScanAllNext(str, comma, st);
      StepTidy(str, st);
      if AtText(str, st.s) {
        PieceInside(str, st.s);
      }
      if next.right <= |str| {
        SpoiledScan(str, comma, next);
        SpoiledStep(str, comma, st);
      } else {
        ScanAllDone(str, comma, next);
      }
    }
  }

  lemma SpoiledStep(str: string, comma: bool, st: Scan)
    requires Tidy(str, st) && !ScanDone(str, comma, st.s) && ScanStep(str, st).right <= |str|
    ensures var next := ScanStep(str, st);
            Spoiled(str, st.s, comma, st.left < st.right, st.sa != "" || st.closed) ==
            Spoiled(str, next.s, comma, next.left < next.right, next.sa != "" || next.closed)
  {
    hide TextEnd, SkipComment, BreaksOff;
    if AtText(str, st.s) {
      PieceInside(str, st.s);
    }
  }

  lemma {:induction false} SpoiledFrom(str: string, s: nat, comma: bool, text: bool, joined: bool)
    requires text ==> joined
    ensures Spoiled(str, s, comma, text, joined) == Spoiled(str, SkipCommentSpace(str, s), comma, text, joined)
    decreases |str| - s
  {
    hide BreaksOff, TextEnd;
    if s < |str| {
      if IsSpace(str[s]) {
        SpoiledFrom(str, s + 1, comma, text, joined);
      } else if StartsComment(str, s) {
        SpoiledFrom(str, SkipComment(str, s), comma, text, joined);
      }
    }
  }

  lemma SpoiledExactly(str: string, i: nat, comma: bool)
    ensures Spoiled(str, i, comma, false, false) <==>
      Final(str, i, comma).right > |str| && Uncommented(str, i, comma).1 != ""
  {
    hide Spoiled, Uncommented, Final, ScanAll, AtText, SkipCommentSpace;
    UncommentedIs(str, i, comma);
    SpoiledFrom(str, i, comma, false, false);
    SkipsToText(str, i);
    var st := Init(str, i);
    if st.s < |str| {
      SpoiledScan(str, comma, st);
    } else {
      ScanAllDone(str, comma, st);
      SpoiledEnd(str, st.s, comma);
    }
  }

  lemma SpoiledEnd(str: string, s: nat, comma: bool)
    requires s >= |str|
    ensures !Spoiled(str, s, comma, false, false) && !Spoiled(str, s, comma, true, true)
  {
  }

  // ----- What is kept

  /** The pieces of text from `s` on.  Between two of them stand the spaces that did, or one space if
      there was a comment. */
  function Kept(str: string, s: nat, comma: bool): string
    decreases |str| - s
  {
    var t := SkipCommentSpace(str, s);
    if ScanDone(str, comma, t) then ""
    else
      var e := TextEnd(str, t);
      (if Blank(str, s, t) then Sub(str, s, t) else " ") + Sub(str, t, e) + Kept(str, e, comma)
  }

  predicate Blank(str: string, a: nat, b: nat) {
    b <= |str| && forall i :: a <= i < b ==> IsSpace(str[i])
  }

  /** Behind the last piece kept there are the spaces and comments that the scan has passed. */
  ghost predicate Passed(str: string, st: Scan) {
    && Tidy(str, st) && st.right <= |str| && SkipCommentSpace(str, st.right) == SkipCommentSpace(str, st.s)
    && (st.s <= |str| ==> (st.closed <==> !Blank(str, st.right, st.s)))
  }

  lemma PassedStep(str: string, comma: bool, st: Scan)
    requires Passed(str, st) && !ScanDone(str, comma, st.s) && ScanStep(str, st).right <= |str|
    ensures Passed(str, ScanStep(str, st))
  {
    hide TextEnd, SkipComment, AtText, Tidy;
    StepTidy(str, st);
    TidyOrder(str, st);
    if StartsComment(str, st.s) && !IsSpace(str[st.s]) {
      assert !Blank(str, st.right, SkipComment(str, st.s)) by { assert st.right <= st.s < SkipComment(str, st.s); }
    }
  }

  lemma TidyOrder(str: string, st: Scan)
    requires Tidy(str, st)
    ensures st.left <= st.right <= st.s
  {
  }

  lemma KeptNone(str: string, comma: bool, st: Scan)
    requires Passed(str, st) && ScanDone(str, comma, st.s)
    ensures Kept(str, st.right, comma) == ""
  {
    hide TextEnd, SkipComment, AtText, Tidy;
    assert SkipCommentSpace(str, st.s) == st.s;
  }

  lemma KeptPiece(str: string, comma: bool, st: Scan)
    requires Passed(str, st) && AtText(str, st.s) && !ScanDone(str, comma, st.s) && TextEnd(str, st.s) <= |str|
    ensures var e := TextEnd(str, st.s);
            Kept(str, st.right, comma) == Gap(str, st) + str[st.s..e] + Kept(str, e, comma)
  {
    hide TextEnd, SkipComment, Tidy;
    assert SkipCommentSpace(str, st.s) == st.s;
  }

  lemma {:induction false} KeptScan(str: string, comma: bool, st: Scan)
    requires Passed(str, st) && !Spoiled(str, st.s, comma, true, true)
    ensures Out(str, ScanAll(str, comma, st)) == Out(str, st) + Kept(str, st.right, comma)
    decreases |str| - st.s
  {
    hide TextEnd, SkipComment, BreaksOff, Tidy, ScanAll, Kept, Passed, Gap, Out, ScanStep;
    if ScanDone(str, comma, st.s) {
      ScanAllDone(str, comma, st);
      KeptNone(str, comma, st);
      Regroup(Out(str, st), "", "");
    } else {
      var next := ScanStep(str, st);
      ScanAllNext(str, comma, st);
      PassedTidy(str, st);
      StepPlace(str, comma, st);
      PassedStep(str, comma, st);
      KeptScan(str, comma, next);
      if AtText(str, st.s) {
        var e := TextEnd(str, st.s);
        TextStep(str, st);
        KeptPiece(str, comma, st);
        Regroup(Out(str, st), Gap(str, st), str[st.s..e]);
        Regroup(Out(str, st), Gap(str, st) + str[st.s..e], Kept(str, e, comma));
      } else {
        NoText(str, st);
      }
    }
  }

  lemma PassedTidy(str: string, st: Scan)
    requires Passed(str, st)
    ensures Tidy(str, st) && st.right <= |str|
  {
  }

  lemma StepPlace(str: string, comma: bool, st: Scan)
    requires !ScanDone(str, comma, st.s) && !Spoiled(str, st.s, comma, true, true) && st.right <= |str|
    ensures var next := ScanStep(str, st); !Spoiled(str, next.s, comma, true, true) && next.right <= |str|
    ensures AtText(str, st.s) ==> TextEnd(str, st.s) <= |str| && ScanStep(str, st).right == TextEnd(str, st.s)
    ensures !AtText(str, st.s) ==> ScanStep(str, st).right == st.right
  {
    hide TextEnd, SkipComment, BreaksOff;
    if AtText(str, st.s) {
      PieceInside(str, st.s);
    }
  }

  // ----- What is left when a piece breaks off

  /** What stays of the text behind a piece that ended at `s`, up to a piece that breaks off: all
      before the last comment that has text before and behind it, and a space for that comment. */
  function Survives(str: string, s: nat, comma: bool): string
    decreases |str| - s
  {
    var t := SkipCommentSpace(str, s);
    if ScanDone(str, comma, t) then ""
    else
      var e := TextEnd(str, t);
      var rest := if BreaksOff(str, t) then "" else Survives(str, e, comma);
      if rest != "" then (if Blank(str, s, t) then Sub(str, s, t) else " ") + Sub(str, t, e) + rest
      else if Blank(str, s, t) then "" else " "
  }

  lemma SurvivesPiece(str: string, comma: bool, st: Scan)
    requires Passed(str, st) && AtText(str, st.s) && !ScanDone(str, comma, st.s)
    ensures var e := TextEnd(str, st.s); var rest := if BreaksOff(str, st.s) then "" else Survives(str, e, comma);
            Survives(str, st.right, comma) ==
            if rest != "" then Gap(str, st) + Sub(str, st.s, e) + rest else if st.closed then " " else ""
  {
    hide TextEnd, SkipComment, Tidy, BreaksOff;
    assert SkipCommentSpace(str, st.s) == st.s;
  }

  /** What a scan that breaks off will have kept. */
  function Saved(str: string, comma: bool, st: Scan): string {
    var more := Survives(str, st.right, comma);
    if more == "" then st.sa else Out(str, st) + more
  }

  lemma SavedStep(str: string, comma: bool, st: Scan)
    requires Passed(str, st) && !ScanDone(str, comma, st.s)
    requires AtText(str, st.s) ==> TextEnd(str, st.s) <= |str|
    ensures Saved(str, comma, ScanStep(str, st)) == Saved(str, comma, st)
  {
    hide TextEnd, SkipComment, BreaksOff, Survives, Gap, Out, Passed;
    var next := ScanStep(str, st);
    PassedTidy(str, st);
    if AtText(str, st.s) {
      var e := TextEnd(str, st.s);
      PieceInside(str, st.s);
      TextStep(str, st);
      SurvivesPiece(str, comma, st);
      var rest := Survives(str, e, comma);
      Regroup(Out(str, st), Gap(str, st), str[st.s..e]);
      Regroup(Out(str, st), Gap(str, st) + str[st.s..e], rest);
      ClosedJoin(str, st);
    } else {
      NoText(str, st);
      assert next.sa == st.sa && next.right == st.right;
    }
  }

  lemma ClosedJoin(str: string, st: Scan)
    requires AtText(str, st.s)
    ensures ScanStep(str, st).sa == if st.closed then Out(str, st) + " " else st.sa
  {
    hide TextEnd;
  }

  lemma SavedLast(str: string, comma: bool, st: Scan)
    requires Passed(str, st) && !ScanDone(str, comma, st.s) && AtText(str, st.s) && BreaksOff(str, st.s)
    ensures var next := ScanStep(str, st); next.s > |str| && Out(str, next) == Saved(str, comma, st)
  {
    var next := ScanStep(str, st);
    PieceInside(str, st.s);
    assert next.right == next.s == TextEnd(str, st.s);
    assert Sub(str, next.left, next.right) == "";
    hide TextEnd, SkipComment, BreaksOff, Survives, Gap, Passed;
    SurvivesPiece(str, comma, st);
    ClosedJoin(str, st);
  }

  lemma {:induction false} SavedScan(str: string, comma: bool, st: Scan)
    requires Passed(str, st) && Spoiled(str, st.s, comma, true, true)
    ensures Out(str, ScanAll(str, comma, st)) == Saved(str, comma, st)
    decreases |str| - st.s
  {
    hide TextEnd, SkipComment, BreaksOff, ScanAll, Saved, Passed, Out, ScanStep;
    var next := ScanStep(str, st);
    ScanAllNext(str, comma, st);
    PassedTidy(str, st);
    if AtText(str, st.s) && BreaksOff(str, st.s) {
      SavedLast(str, comma, st);
      ScanAllDone(str, comma, next);
    } else {
      StepOn(str, comma, st);
      PassedStep(str, comma, st);
      SavedScan(str, comma, next);
      SavedStep(str, comma, st);
    }
  }

  lemma StepOn(str: string, comma: bool, st: Scan)
    requires !ScanDone(str, comma, st.s) && st.right <= |str|
    requires !AtText(str, st.s) || !BreaksOff(str, st.s)
    ensures var next := ScanStep(str, st);
        Spoiled(str, next.s, comma, true, true) == Spoiled(str, st.s, comma, true, true)
    ensures ScanStep(str, st).right <= |str| && (AtText(str, st.s) ==> TextEnd(str, st.s) <= |str|)
  {
    hide TextEnd, SkipComment, BreaksOff;
    if AtText(str, st.s) {
      PieceInside(str, st.s);
    }
  }

  /** Some piece from `i` on breaks off. */
  predicate Breaks(str: string, i: nat, comma: bool) {
    Spoiled(str, i, comma, true, true)
  }

  /** If no piece breaks off, uncommenting leaves the pieces of text in order, with the spaces or one
      space for a comment between them, and nothing before or after.  If one does, what is left is
      all before the last comment between pieces of text and a space, or nothing. */
  lemma KeptIs(str: string, i: nat, comma: bool)
    ensures var s := SkipCommentSpace(str, i);
            Uncommented(str, i, comma).1 == if Breaks(str, i, comma)
                then Survives(str, s, comma) else Kept(str, s, comma)
  {
    hide Spoiled, Uncommented, Final, ScanAll, SkipCommentSpace, Kept, Survives;
    UncommentedIs(str, i, comma);
    SpoiledFrom(str, i, comma, true, true);
    SkipsToText(str, i);
    var st := Init(str, i);
    if st.s < |str| {
      AtTextStays(str, st.s);
      assert Out(str, st) == "";
      if Breaks(str, i, comma) {
        SavedScan(str, comma, st);
        Regroup(Out(str, st), Survives(str, st.s, comma), "");
      } else {
        KeptScan(str, comma, st);
        Regroup(Out(str, st), Kept(str, st.s, comma), "");
      }
    } else {
      ScanAllDone(str, comma, st);
      KeptEnd(str, st.s, comma);
    }
  }

  lemma AtTextStays(str: string, s: nat)
    requires AtText(str, s)
    ensures SkipCommentSpace(str, s) == s
  {
  }

  lemma KeptEnd(str: string, s: nat, comma: bool)
    requires s >= |str|
    ensures Kept(str, s, comma) == "" && Survives(str, s, comma) == ""
  {
  }

  /** When a piece breaks off, everything is lost unless the text is spoiled. */
  lemma LostExactly(str: string, i: nat, comma: bool)
    requires Breaks(str, i, comma)
    ensures Uncommented(str, i, comma).1 == "" <==> !Spoiled(str, i, comma, false, false)
  {
    hide Uncommented, Final, Spoiled, SkipCommentSpace, ScanAll;
    SpoiledExactly(str, i, comma);
    BreaksScan(str, i, comma);
  }

  lemma BreaksScan(str: string, i: nat, comma: bool)
    requires Breaks(str, i, comma)
    ensures Final(str, i, comma).right > |str|
  {
    hide Uncommented, Final, Spoiled, SkipCommentSpace, ScanAll;
    UncommentedIs(str, i, comma);
    SpoiledFrom(str, i, comma, true, true);
    SkipsToText(str, i);
    var st := Init(str, i);
    if st.s < |str| {
      AtTextStays(str, st.s);
      BreaksEnds(str, comma, st);
    } else {
      SpoiledEnd(str, st.s, comma);
    }
  }

  lemma {:induction false} BreaksEnds(str: string, comma: bool, st: Scan)
    requires st.right <= |str| && Spoiled(str, st.s, comma, true, true)
    ensures ScanAll(str, comma, st).right > |str|
    decreases |str| - st.s
  {
    hide TextEnd, SkipComment, BreaksOff, ScanAll;
    var next := ScanStep(str, st);
    ScanAllNext(str, comma, st);
    if AtText(str, st.s) { PieceInside(str, st.s); }
    if AtText(str, st.s) && BreaksOff(str, st.s) {
      ScanAllDone(str, comma, next);
    } else {
      StepOn(str, comma, st);
      BreaksEnds(str, comma, next);
    }
  }

  // ----- Reading a result again

  /** A result begins with text. */
  lemma {:induction false} BeginsWithText(str: string, i: nat, comma: bool, n: nat, other: string, base: nat)
    requires var st := Nth(str, i, comma, n);
             st.right <= |str| && Follows(str, st, other, base) && Out(str, st) != ""
    ensures AtText(other, base)
  {
    hide TextEnd, AtText, SkipCommentSpace, Follows, ScanAll, ScanStep, Tidy;
    if n > 0 {
      var st := Nth(str, i, comma, n - 1);
      NthTidy(str, i, comma, n - 1);
      if ScanDone(str, comma, st.s) {
        BeginsWithText(str, i, comma, n - 1, other, base);
      } else {
        FollowsBack(str, st, other, base);
        if Out(str, st) != "" {
          BeginsWithText(str, i, comma, n - 1, other, base);
        } else {
          FirstText(str, st);
          TextFits(str, st);
          Advance(str, comma, st, other, base, false);
        }
      }
    }
  }

  lemma FirstText(str: string, st: Scan)
    requires Tidy(str, st) && st.s < |str| && st.right <= |str| && Out(str, st) == ""
    ensures AtText(str, st.s) && Gap(str, st) == ""
  {
    hide AtText;
  }

  lemma {:induction false} LastJoin(str: string, i: nat, comma: bool, n: nat) returns (m: nat)
    requires Nth(str, i, comma, n).sa != ""
    ensures m < n
    ensures var st := Nth(str, i, comma, m);
            st.closed && st.right < |str| && Nth(str, i, comma, n).sa == Out(str, st) + " "
  {
    hide TextEnd, SkipComment, SkipCommentSpace;
    m := 0;
    if n > 0 {
      var st := Nth(str, i, comma, n - 1);
      NthTidy(str, i, comma, n - 1);
      if !ScanDone(str, comma, st.s) && AtText(str, st.s) && st.closed {
        m := n - 1;
      } else {
        m := LastJoin(str, i, comma, n - 1);
      }
    }
  }

  lemma FromText(x: string, base: nat, comma: bool, st: Scan)
    requires base >= |x| || AtText(x, base)
    requires ScanAll(x, comma, Second(base, base)) == st
    ensures Uncommented(x, base, comma) == (st.s, Out(x, st))
  {
    hide ScanAll;
  }

  /** The result of a scan that was not cut short stands in `other` at `base`. */
  lemma CleanReads(str: string, i: nat, comma: bool, x: string, other: string, base: nat, comma': bool)
    requires var st := Final(str, i, comma);
             x == Out(str, st) != "" && st.right <= |str| && Follows(str, st, other, base)
    requires (comma' ==> comma) && ScanDone(other, comma', base + |x|)
    ensures Uncommented(other, base, comma') == (base + |x|, x)
  {
    hide ScanAll, Nth, AtText, Uncommented, ScanDone;
    var n, e := |str|, base + |x|;
    BeginsWithText(str, i, comma, n, other, base);
    Simulate(str, i, comma, n, other, base, comma');
    ScanAllDone(other, comma', Second(base, e));
    FromText(other, base, comma', Second(base, e));
    assert Out(other, Second(base, e)) == x;
  }

  /** A result may be followed by the end of the string, or by a comma if it is not the last. */
  ghost predicate Placed(str: string, i: nat, comma: bool, other: string, base: nat, comma': bool) {
    var (next, x) := Uncommented(str, i, comma);
    && (comma' ==> comma) && At(other, base, x)
    && (base + |x| == |other| || (next < |str| && comma' && other[base + |x|] == ','))
  }

  /** Reading a result where it stands by itself or in a list gives the result. */
  lemma Reads(str: string, i: nat, comma: bool, other: string, base: nat, comma': bool)
    requires Placed(str, i, comma, other, base, comma') && !Spoiled(str, i, comma, false, false)
    ensures var x := Uncommented(str, i, comma).1; Uncommented(other, base, comma') == (base + |x|, x)
  {
    hide Uncommented, Final, Spoiled, ScanAll, ScanDone;
    UncommentedIs(str, i, comma);
    SpoiledExactly(str, i, comma);
    var x := Uncommented(str, i, comma).1;
    DoneAt(other, base + |x|, comma');
    if x == "" {
      NothingRead(other, base, comma');
    } else {
      FinalFollows(str, Final(str, i, comma), other, base);
      CleanReads(str, i, comma, x, other, base, comma');
    }
  }

  lemma FinalFollows(str: string, st: Scan, other: string, base: nat)
    requires Tidy(str, st) && At(other, base, Out(str, st))
    requires var e := base + |Out(str, st)|; e == |other| || (st.s < |str| && other[e] == ',')
    ensures Follows(str, st, other, base)
  {
    hide Out, AtText;
  }

  lemma DoneAt(other: string, e: nat, comma: bool)
    requires e == |other| || (e < |other| && comma && other[e] == ',')
    ensures ScanDone(other, comma, e)
  {
  }

  lemma NothingRead(other: string, base: nat, comma: bool)
    requires base == |other| || (base < |other| && comma && other[base] == ',')
    ensures Uncommented(other, base, comma) == (base, "")
  {
    assert SkipCommentSpace(other, base) == base;
    ScanAllDone(other, comma, Scan(base, base, base, false, ""));
    assert "" + Sub(other, base, base) == "";
  }

  /** A spoiled result ends with a space too many, which is lost in reading. */
  lemma ReadsShort(str: string, i: nat, comma: bool, other: string, base: nat, comma': bool)
    requires Spoiled(str, i, comma, false, false) && (comma' ==> comma)
    requires var x := Uncommented(str, i, comma).1; At(other, base, x) && base + |x| == |other|
    ensures var x := Uncommented(str, i, comma).1;
            |x| > 1 && x[|x| - 1] == ' ' && Uncommented(other, base, comma') == (|other|, x[..|x| - 1])
  {
    hide ScanAll, Nth, AtText, Uncommented, Tidy, Spoiled, At;
    UncommentedIs(str, i, comma);
    SpoiledExactly(str, i, comma);
    var n, x := |str|, Uncommented(str, i, comma).1;
    assert x == Nth(str, i, comma, n).sa + "" == Nth(str, i, comma, n).sa;
    var m := LastJoin(str, i, comma, n);
    var y, st := Out(str, Nth(str, i, comma, m)), Nth(str, i, comma, m);
    assert x == y + " " && x[..|x| - 1] == y;
    AtSplit(other, base, y, " ");
    AtEnd(other, base + |y|);
    JoinFollows(str, st, other, base);
    NthTidy(str, i, comma, m);
    ClosedKept(str, st);
    BeginsWithText(str, i, comma, m, other, base);
    Simulate(str, i, comma, m, other, base, comma');
    ShortEnd(other, base, |y|, comma');
  }

  lemma AtEnd(other: string, e: nat)
    requires At(other, e, " ")
    ensures e < |other| && other[e] == ' '
  {
    AtIndex(other, e, " ", 0);
  }

  lemma JoinFollows(str: string, st: Scan, other: string, base: nat)
    requires st.right < |str| && At(other, base, Out(str, st))
    requires var e := base + |Out(str, st)|; e < |other| && other[e] == ' '
    ensures Follows(str, st, other, base)
  {
  }

  lemma ShortEnd(other: string, base: nat, n: nat, comma: bool)
    requires AtText(other, base) && base + n + 1 == |other| && other[base + n] == ' '
    requires ScanAll(other, comma, Second(base, base)) == ScanAll(other, comma, Second(base, base + n))
    ensures Uncommented(other, base, comma) == (|other|, other[base..base + n])
  {
    hide ScanAll, Uncommented, AtText;
    var j := base + n;
    var last := Scan(j + 1, base, j, false, "");
    ScanAllNext(other, comma, Second(base, j));
    ScanAllDone(other, comma, last);
    FromText(other, base, comma, last);
    assert Out(other, last) == other[base..j];
  }

  lemma ClosedKept(str: string, st: Scan)
    requires Tidy(str, st) && st.closed && st.right < |str|
    ensures Out(str, st) != ""
  {
    hide AtText;
  }

  /** Uncommenting again changes nothing, if and only if the text is not spoiled. */
  lemma TwiceIsOnce(str: string, i: nat, comma: bool, comma': bool)
    requires comma' ==> comma
    ensures var x := Uncommented(str, i, comma).1;
            && (!Spoiled(str, i, comma, false, false) ==> Uncommented(x, 0, comma') == (|x|, x))
            && (Uncommented(x, 0, comma').1 == x <==> !Spoiled(str, i, comma, false, false))
  {
    hide Uncommented, Spoiled;
    var x := Uncommented(str, i, comma).1;
    assert x[0..|x|] == x;
    if Spoiled(str, i, comma, false, false) {
      ReadsShort(str, i, comma, x, 0, comma');
    } else {
      Reads(str, i, comma, x, 0, comma');
    }
  }

  /** The text ends with a comment that has just begun. */
  predicate EndsInComment(str: string) {
    || (|str| >= 2 && StartsComment(str, |str| - 2))
    || (|str| >= 3 && StartsComment(str, |str| - 3) && str[|str| - 2] == '*')
  }

  lemma {:induction false} LineEndLimit(str: string, s: nat)
    requires s < |str|
    ensures LineEnd(str, s) <= |str|
    decreases |str| - s
  {
    if s + 1 < |str| && str[s] != '\n' && str[s] != '\r' { LineEndLimit(str, s + 1); }
  }

  lemma {:induction false} StarEndLimit(str: string, s: nat)
    requires s + 1 < |str|
    ensures StarEnd(str, s) <= |str|
    decreases |str| - s
  {
    if s + 2 < |str| && (str[s] != '*' || str[s + 1] != '/') { StarEndLimit(str, s + 1); }
  }

  lemma CommentLimit(str: string, s: nat)
    requires StartsComment(str, s) && SkipComment(str, s) > |str|
    ensures EndsInComment(str)
  {
    hide LineEnd, StarEnd;
    if str[s + 1] == '/' {
      if s + 2 < |str| { LineEndLimit(str, s + 2); }
    } else if s + 3 < |str| {
      StarEndLimit(str, s + 2);
    }
  }

  lemma {:induction false} AngleLimit(str: string, s: nat)
    requires s <= |str| < SkipAngle(str, s)
    ensures EndsInComment(str)
    decreases |str| - s
  {
    hide SkipComment, EndsInComment;
    if StartsComment(str, s) {
      if SkipComment(str, s) > |str| {
        CommentLimit(str, s);
      } else {
        AngleLimit(str, SkipComment(str, s));
      }
    } else {
      AngleLimit(str, s + 1);
    }
  }

  /** Only a text that ends with the beginning of a comment can be spoiled. */
  lemma {:induction false} SpoiledEnds(str: string, s: nat, comma: bool, text: bool, joined: bool)
    requires Spoiled(str, s, comma, text, joined)
    ensures EndsInComment(str)
    decreases |str| - s
  {
    hide SkipComment, EndsInComment, TextEnd, SkipAngle;
    if IsSpace(str[s]) {
      SpoiledEnds(str, s + 1, comma, text, joined);
    } else if StartsComment(str, s) {
      SpoiledEnds(str, SkipComment(str, s), comma, text, joined || text);
    } else if BreaksOff(str, s) {
      AngleLimit(str, s + 2);
    } else {
      SpoiledEnds(str, TextEnd(str, s), comma, true, joined);
    }
  }

  // ----- Splitting a list again

  /** The last argument from `pos` on is spoiled. */
  predicate ListSpoiled(str: string, pos: nat)
    decreases |str| - pos
  {
    if pos >= |str| then false
    else
      var next := Uncommented(str, pos, true).0;
      UncommentedAdvances(str, pos, true);
      if next < |str| then ListSpoiled(str, next + 1) else Spoiled(str, pos, true, false, false)
  }

  /** What splitting makes of a list that was split and joined: an empty argument at the end is lost,
      and a spoiled one loses its last character. */
  function Resplit(conf: seq<string>, spoiled: bool): seq<string> {
    if conf == [] then []
    else if |conf| > 1 then [conf[0]] + Resplit(conf[1..], spoiled)
    else if conf[0] == "" then []
    else if spoiled then [conf[0][..|conf[0]| - 1]]
    else conf
  }

  lemma ListStep(str: string, pos: nat, next: nat, arg: string)
    requires pos < |str| && (next, arg) == Uncommented(str, pos, true)
    ensures next >= pos
    ensures ListSpoiled(str, pos) == if next < |str| then ListSpoiled(str, next + 1)
                                     else Spoiled(str, pos, true, false, false)
    ensures next < |str| ==> !Spoiled(str, pos, true, false, false)
    ensures arg == "" ==> !Spoiled(str, pos, true, false, false)
  {
    hide Uncommented, Spoiled, AtText;
    UncommentedAdvances(str, pos, true);
    UncommentedIs(str, pos, true);
    SpoiledExactly(str, pos, true);
  }

  lemma {:induction false} NoneSpoiled(str: string, pos: nat)
    requires ArgvecFrom(str, pos) == []
    ensures !ListSpoiled(str, pos)
  {
    hide Uncommented, ArgvecFrom, Spoiled;
    if pos < |str| {
      var (next, arg) := Uncommented(str, pos, true);
      ArgvecStep(str, pos, next, arg);
      ListStep(str, pos, next, arg);
    }
  }

  /** The space behind a comma makes no difference. */
  lemma SpaceSkipped(other: string, p: nat)
    requires p < |other| && other[p] == ' '
    ensures ArgvecFrom(other, p) == ArgvecFrom(other, p + 1)
  {
    hide Uncommented, ArgvecFrom;
    if p + 1 < |other| {
      SkipSeparator(other, p);
      var (next, arg) := Uncommented(other, p, true);
      UncommentedAdvances(other, p + 1, true);
      ArgvecStep(other, p, next, arg);
      ArgvecStep(other, p + 1, next, arg);
    } else {
      OneSpace(other, p);
      ArgvecStep(other, p, p + 1, "");
      ArgvecEnd(other, p + 1);
      ArgvecEnd(other, p + 2);
    }
  }

  lemma OneSpace(other: string, p: nat)
    requires p + 1 == |other| && other[p] == ' '
    ensures Uncommented(other, p, true) == (p + 1, "")
  {
    assert SkipCommentSpace(other, p) == p + 1;
    ScanAllDone(other, true, Scan(p + 1, p + 1, p + 1, false, ""));
    assert "" + Sub(other, p + 1, p + 1) == "";
  }

  /** The last argument. */
  lemma ResplitLast(str: string, pos: nat, other: string, base: nat, arg: string)
    requires pos < |str| && arg == Uncommented(str, pos, true).1
    requires base <= |other| && other[base..] == arg
    ensures ArgvecFrom(other, base) == Resplit([arg], Spoiled(str, pos, true, false, false))
  {
    hide Uncommented, ArgvecFrom, Spoiled;
    var e := |other|;
    assert base + |arg| == e && other[base..e] == other[base..];
    if arg == "" {
      ArgvecEnd(other, base);
    } else {
      if Spoiled(str, pos, true, false, false) {
        ReadsShort(str, pos, true, other, base, true);
        ArgvecStep(other, base, e, arg[..|arg| - 1]);
      } else {
        Reads(str, pos, true, other, base, true);
        ArgvecStep(other, base, e, arg);
      }
      ArgvecEnd(other, e + 1);
    }
  }

  /** An argument with more behind it. */
  lemma ResplitNext(str: string, pos: nat, other: string, base: nat, arg: string, next: nat, tail: string)
    requires pos < |str| && (next, arg) == Uncommented(str, pos, true) && next < |str|
    requires base <= |other| && other[base..] == arg + (", " + tail)
    ensures var p := base + |arg| + 2;
            p <= |other| && other[p..] == tail && ArgvecFrom(other, base) == [arg] + ArgvecFrom(other, p)
  {
    hide Uncommented, ArgvecFrom, Spoiled;
    var e := base + |arg|;
    ListStep(str, pos, next, arg);
    assert other[base..e] == other[base..][..|arg|] == arg;
    assert other[e] == other[base..][|arg|] == ',' && other[e + 1] == other[base..][|arg| + 1] == ' ';
    assert other[e + 2..] == other[base..][|arg| + 2..] == tail;
    Reads(str, pos, true, other, base, true);
    ArgvecStep(other, base, e, arg);
    SpaceSkipped(other, e + 1);
  }

  lemma NoTail()
    ensures JoinTail([]) == ""
  {
  }

  lemma JoinTailCons(items: seq<string>)
    requires items != []
    ensures JoinTail(items) == ", " + (items[0] + JoinTail(items[1..]))
  {
  }

  lemma {:induction false} ResplitFrom(str: string, pos: nat, other: string, base: nat)
    requires ArgvecFrom(str, pos) != [] && base <= |other|
    requires var conf := ArgvecFrom(str, pos); other[base..] == conf[0] + JoinTail(conf[1..])
    ensures ArgvecFrom(other, base) == Resplit(ArgvecFrom(str, pos), ListSpoiled(str, pos))
    decreases |str| - pos
  {
    hide Uncommented, ArgvecFrom, Spoiled, JoinTail, ListSpoiled;
    if pos >= |str| {
      ArgvecEnd(str, pos);
    } else {
      var (next, arg) := Uncommented(str, pos, true);
      ArgvecStep(str, pos, next, arg);
      ListStep(str, pos, next, arg);
      var rest := ArgvecFrom(str, next + 1);
      if next >= |str| {
        ArgvecEnd(str, next + 1);
      }
      assert ([arg] + rest)[1..] == rest;
      if rest == [] {
        NoneSpoiled(str, next + 1);
        NoTail();
        ResplitLast(str, pos, other, base, arg);
      } else {
        JoinTailCons(rest);
        ResplitNext(str, pos, other, base, arg, next, rest[0] + JoinTail(rest[1..]));
        ResplitFrom(str, next + 1, other, base + |arg| + 2);
      }
    }
  }

  lemma {:induction false} ResplitSame(conf: seq<string>, spoiled: bool)
    ensures Resplit(conf, spoiled) == conf <==> conf == [] || (conf[|conf| - 1] != "" && !spoiled)
    decreases |conf|
  {
    if |conf| > 1 {
      ResplitSame(conf[1..], spoiled);
      assert conf == [conf[0]] + conf[1..];
      assert ([conf[0]] + Resplit(conf[1..], spoiled))[1..] == Resplit(conf[1..], spoiled);
    } else if |conf| == 1 && spoiled && conf[0] != "" {
      assert |conf[0][..|conf[0]| - 1]| < |conf[0]|;
    }
  }

  /** Splitting, joining and splitting again gives the same arguments, if and only if the last
      argument is neither empty nor spoiled. */
  lemma ArgvecAgain(str: string)
    ensures var conf := ArgvecFrom(str, 0);
            && ArgvecFrom(Unargvec(conf), 0) == Resplit(conf, ListSpoiled(str, 0))
            && (ArgvecFrom(Unargvec(conf), 0) == conf <==>
                conf == [] || (conf[|conf| - 1] != "" && !ListSpoiled(str, 0)))
  {
    hide ArgvecFrom, ListSpoiled, JoinTail;
    var conf := ArgvecFrom(str, 0);
    ResplitSame(conf, ListSpoiled(str, 0));
    if conf == [] {
      ArgvecEnd("", 0);
    } else {
      UnargvecForward(conf);
      var other := Unargvec(conf);
      assert other[0..] == other;
      ResplitFrom(str, 0, other, 0);
    }
  }

  /** Every argument of a list is stable under uncommenting, but for a spoiled one at the end. */
  lemma {:induction false} ArgumentStable(str: string, pos: nat, k: nat)
    requires k < |ArgvecFrom(str, pos)|
    ensures var conf := ArgvecFrom(str, pos);
            Uncommented(conf[k], 0, false).1 == conf[k] <==> !(k == |conf| - 1 && ListSpoiled(str, pos))
    decreases |str| - pos
  {
    hide Uncommented, ArgvecFrom, Spoiled, ListSpoiled;
    if pos >= |str| {
      ArgvecEnd(str, pos);
    } else {
      var (next, arg) := Uncommented(str, pos, true);
      ArgvecStep(str, pos, next, arg);
      ListStep(str, pos, next, arg);
      TwiceIsOnce(str, pos, true, false);
      var rest := ArgvecFrom(str, next + 1);
      if next >= |str| {
        ArgvecEnd(str, next + 1);
      } else if k > 0 {
        ArgumentStable(str, next + 1, k - 1);
      }
      if rest == [] {
        NoneSpoiled(str, next + 1);
      }
    }
  }

  const Broken := "a/**/\\</*"

  lemma BrokenSteps()
    ensures Init(Broken, 0) == Scan(0, 0, 0, false, "")
    ensures ScanStep(Broken, Scan(0, 0, 0, false, "")) == Scan(1, 0, 1, false, "")
    ensures ScanStep(Broken, Scan(1, 0, 1, false, "")) == Scan(5, 0, 1, true, "")
    ensures ScanStep(Broken, Scan(5, 0, 1, true, "")) == Scan(11, 5, 11, false, "a ")
  {
    assert StarEnd(Broken, 3) == 5;
    assert StarEnd(Broken, 9) == 11;
    assert SkipAngle(Broken, 11) == 11;
    assert SkipAngle(Broken, 7) == 11;
    assert "" + Sub(Broken, 0, 1) + " " == "a ";
  }

  /** A text that is not simplified at once: a space is left where the escape was. */
  lemma BrokenTwice()
    ensures Spoiled(Broken, 0, false, false, false)
    ensures Uncommented(Broken, 0, false).1 == "a " && Uncommented("a ", 0, false).1 == "a"
  {
    hide ScanAll, ScanStep, Init, Spoiled, Uncommented;
    BrokenSteps();
    ScanAllNext(Broken, false, Scan(0, 0, 0, false, ""));
    ScanAllNext(Broken, false, Scan(1, 0, 1, false, ""));
    ScanAllNext(Broken, false, Scan(5, 0, 1, true, ""));
    ScanAllDone(Broken, false, Scan(11, 5, 11, false, "a "));
    UncommentedIs(Broken, 0, false);
    assert Out(Broken, Scan(11, 5, 11, false, "a ")) == "a ";
    SpoiledExactly(Broken, 0, false);
    ReadsShort(Broken, 0, false, "a ", 0, false);
    assert "a "[..1] == "a";
  }

  const Lost := "abc \\</*"

  lemma LostSteps()
    ensures TextEnd(Lost, 0) == 1 && TextEnd(Lost, 1) == 2 && TextEnd(Lost, 2) == 3
    ensures IsSpace(Lost[3]) && BreaksOff(Lost, 4) && AtText(Lost, 4)
  {
    assert StarEnd(Lost, 8) == 10;
    assert SkipAngle(Lost, 10) == 10;
    assert SkipAngle(Lost, 6) == 10;
  }

  /** A text of which nothing is left, though it has text before the piece that breaks off. */
  lemma AllLost()
    ensures Breaks(Lost, 0, false) && !Spoiled(Lost, 0, false, false, false)
    ensures Uncommented(Lost, 0, false).1 == ""
  {
    LostSteps();
    hide Uncommented, TextEnd, BreaksOff;
    LostSpoiled(true, true);
    LostSpoiled(false, false);
    LostExactly(Lost, 0, false);
  }

  lemma LostSpoiled(text: bool, joined: bool)
    ensures Spoiled(Lost, 0, false, text, joined) == joined
  {
    LostSteps();
    hide TextEnd, BreaksOff;
    assert !BreaksOff(Lost, 0) && !BreaksOff(Lost, 1) && !BreaksOff(Lost, 2) by {
      PieceInside(Lost, 0);
      PieceInside(Lost, 1);
      PieceInside(Lost, 2);
    }
    assert Spoiled(Lost, 4, false, true, joined) == joined;
    assert Spoiled(Lost, 3, false, true, joined) == joined;
    assert Spoiled(Lost, 2, false, true, joined) == joined;
    assert Spoiled(Lost, 1, false, true, joined) == joined;
  }
}
