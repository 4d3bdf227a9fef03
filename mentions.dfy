/** The mention scanner of Utils/String+Style.swift: the matches of the fixed
    regular expression `\B@\w+\b` over a whole text, as offset ranges.

    The word class `\w` is a parameter `w` (a predicate on code units); a
    position outside the text counts as a non-word position, as it does for
    the regular-expression engine's word boundaries. */
module Mentions {
  import opened Wrappers
  import opened Utf16Text

  type WordClass = CodeUnit -> bool

  /** Whether offset i holds a word character; offsets outside the text do not. */
  predicate WordAt(text: Text, w: WordClass, i: int) {
    0 <= i < |text| && w(text[i])
  }

  /** `\b` at offset i: a word position on exactly one side of i. */
  predicate IsBoundary(text: Text, w: WordClass, i: int) {
    WordAt(text, w, i - 1) != WordAt(text, w, i)
  }

  /** The mentions the pattern describes: a `@` at s that is not at a word
      boundary, followed by at least one word character, up to e, where the
      word characters end. */
  ghost predicate IsMention(text: Text, w: WordClass, s: int, e: int) {
    0 <= s < e <= |text|
    && text[s] == AT
    && !IsBoundary(text, w, s)
    && e - s >= 2
    && (forall k :: s < k < e ==> w(text[k]))
    && !WordAt(text, w, e)
  }

  /** The end of the run of word characters that starts at offset i. */
  function WordRunEnd(text: Text, w: WordClass, i: nat): (e: nat)
    requires i <= |text|
    ensures i <= e <= |text|
    ensures forall k :: i <= k < e ==> w(text[k])
    ensures !WordAt(text, w, e)
    decreases |text| - i
  {
    if i < |text| && w(text[i]) then WordRunEnd(text, w, i + 1) else i
  }

  /** The attempt of the pattern anchored at offset s: `\B`, then `@`, then the
      greedy `\w+`, then `\b`. The greedy run always ends at a boundary, so no
      backtracking is ever needed. */
  function MatchAt(text: Text, w: WordClass, s: nat): (m: Option<nat>)
    requires s <= |text|
    ensures m.Some? ==> IsMention(text, w, s, m.value)
    ensures m.None? ==> forall e :: !IsMention(text, w, s, e)
  {
    if s < |text| && text[s] == AT && !IsBoundary(text, w, s) then
      var e := WordRunEnd(text, w, s + 1);
      if e >= s + 2 then Some(e)
      else None
    else None
  }

  /** Whether consecutive ranges of the list are in increasing order and do
      not overlap. */
  predicate Ordered(rs: seq<NSRange>) {
    forall i :: 0 <= i < |rs| - 1 ==> rs[i].End() <= rs[i + 1].location
  }

  /** The matches found by scanning from offset p to the end of the text: when
      the pattern matches at p, scanning resumes at the end of that match;
      otherwise it resumes at p + 1. */
  function MatchesFrom(text: Text, w: WordClass, p: nat): (rs: seq<NSRange>)
    requires p <= |text|
    ensures forall i :: 0 <= i < |rs| ==> p <= rs[i].location
    ensures forall i :: 0 <= i < |rs| ==> IsMention(text, w, rs[i].location, rs[i].End())
    ensures Ordered(rs)
    decreases |text| - p
  {
    if p == |text| then []
    else
      match MatchAt(text, w, p)
      case Some(e) => [NSRange(p, e - p)] + MatchesFrom(text, w, e)
      case None => MatchesFrom(text, w, p + 1)
  }

  /** `rangeOfMentions()`: the matches of the mention pattern over the whole
      text, in increasing order, each a mention that lies within the text. */
  function RangeOfMentions(text: Text, w: WordClass): (rs: seq<NSRange>)
    ensures forall i :: 0 <= i < |rs| ==> IsMention(text, w, rs[i].location, rs[i].End())
    ensures AllWithin(rs, |text|)
    ensures Ordered(rs)
  {
    MatchesFrom(text, w, 0)
  }

  /** When `@` is not a word character, no mention starts inside the run of
      word characters of another one. */
  lemma NoMentionInsideRun(text: Text, w: WordClass, p: nat, e: nat, s: int, e': int)
    requires !w(AT)
    requires p <= |text| && IsMention(text, w, p, e)
    requires IsMention(text, w, s, e') && p < s
    ensures e <= s
  {
  }

  /** Every mention at or after p is found by the scan from p. */
  lemma {:induction false} MatchesFromComplete(text: Text, w: WordClass, p: nat, s: int, e: int)
    requires !w(AT)
    requires p <= |text| && p <= s && IsMention(text, w, s, e)
    ensures NSRange(s, e - s) in MatchesFrom(text, w, p)
    decreases |text| - p
  {
    assert p < |text|;
    match MatchAt(text, w, p)
    case Some(e1) =>
      if s == p {
        assert e == e1;
      } else {
        NoMentionInsideRun(text, w, p, e1, s, e);
        MatchesFromComplete(text, w, e1, s, e);
      }
    case None =>
      MatchesFromComplete(text, w, p + 1, s, e);
  }

  /** When `@` is not a word character, the scan returns exactly the mentions of
      the text: a range is returned if and only if it is a mention. */
  lemma RangeOfMentionsExact(text: Text, w: WordClass, r: NSRange)
    requires !w(AT)
    ensures r in RangeOfMentions(text, w) <==> IsMention(text, w, r.location, r.End())
  {
    if IsMention(text, w, r.location, r.End()) {
      MatchesFromComplete(text, w, 0, r.location, r.End());
    }
  }

  /** A `@` right after a word character never starts a mention, while a `@`
      at offset 0 or after a non-word unit does whenever a word character
      follows it. */
  lemma MentionStart(text: Text, w: WordClass, s: nat)
    requires !w(AT)
    requires s + 1 < |text| && text[s] == AT
    ensures (exists i :: 0 <= i < |RangeOfMentions(text, w)| && RangeOfMentions(text, w)[i].location == s)
        <==> (!WordAt(text, w, s - 1) && w(text[s + 1]))
  {
    var rs := RangeOfMentions(text, w);
    if !WordAt(text, w, s - 1) && w(text[s + 1]) {
      var e := WordRunEnd(text, w, s + 1);
      assert IsMention(text, w, s, e);
      RangeOfMentionsExact(text, w, NSRange(s, e - s));
      var i :| 0 <= i < |rs| && rs[i] == NSRange(s, e - s);
      assert rs[i].location == s;
    }
  }

  /** `a@b`: the `@` follows a word character, so there is no mention. */
  lemma NoMentionAfterWord(w: WordClass)
    requires w(0x61) && w(0x62) && !w(AT)
    ensures RangeOfMentions([0x61, AT, 0x62], w) == []
  {
    var text: Text := [0x61, AT, 0x62];
    assert MatchAt(text, w, 0).None?;
    assert MatchAt(text, w, 1).None?;
    assert MatchAt(text, w, 2).None?;
    assert MatchesFrom(text, w, 3) == [];
    assert MatchesFrom(text, w, 2) == [];
    assert MatchesFrom(text, w, 1) == [];
  }

  /** `@b` and ` @b`: a `@` at the start or after a non-word unit starts one. */
  lemma MentionAtStartOrAfterSpace(w: WordClass)
    requires w(0x62) && !w(AT) && !w(0x20)
    ensures RangeOfMentions([AT, 0x62], w) == [NSRange(0, 2)]
    ensures RangeOfMentions([0x20, AT, 0x62], w) == [NSRange(1, 2)]
  {
    var t1: Text := [AT, 0x62];
    assert WordRunEnd(t1, w, 2) == 2;
    assert WordRunEnd(t1, w, 1) == 2;
    assert MatchAt(t1, w, 0) == Some(2);
    assert MatchesFrom(t1, w, 2) == [];
    var t2: Text := [0x20, AT, 0x62];
    assert MatchAt(t2, w, 0).None?;
    assert WordRunEnd(t2, w, 3) == 3;
    assert WordRunEnd(t2, w, 2) == 3;
    assert MatchAt(t2, w, 1) == Some(3);
    assert MatchesFrom(t2, w, 3) == [];
    assert MatchesFrom(t2, w, 1) == [NSRange(1, 2)];
  }
}
