/** `applyingTweetStyling(fontSize:)` of Utils/String+Style.swift: the base
    font over the whole text, then the mention style over the mentions, then
    the link style over the links. */
module TweetStyling {
  import opened Utf16Text
  import opened Mentions
  import opened AttributedText

  /** `TweetStyling.mention`. */
  const MentionStyle: Attributes := map[ForegroundColor := Color("blue")]

  /** `TweetStyling.link`; 1 is the raw value of a single underline. */
  const LinkStyle: Attributes := map[ForegroundColor := Color("blue"), UnderlineStyle := RawValue(1)]

  /** The default of the `fontSize` parameter. */
  const DefaultFontSize: real := 14.0

  /** The base attributes: the system font at the given size. */
  function BaseAttributes(fontSize: real): Attributes {
    map[Font := SystemFont(fontSize)]
  }

  /** The styled text. Link detection is a library heuristic, so its ranges
      are the parameter `links`; they lie within the text, as the detector's
      matches over the whole text do. Every position carries the base font;
      positions inside a mention carry the mention style; positions inside a
      link carry the link style, laid on top of the mention style, so for a
      key both set the link's value is the one that stays. */
  method ApplyingTweetStyling(text: Text, w: WordClass, links: seq<NSRange>, fontSize: real)
    returns (r: AttributedString)
    requires AllWithin(links, |text|)
    ensures r.Valid() && r.text == text
    ensures forall k :: 0 <= k < |text| ==>
      r.attributes[k] ==
        BaseAttributes(fontSize)
        + (if CoveredBy(RangeOfMentions(text, w), k) then MentionStyle else map[])
        + (if CoveredBy(links, k) then LinkStyle else map[])
    ensures forall k :: 0 <= k < |text| ==> Font in r.attributes[k] && r.attributes[k][Font] == SystemFont(fontSize)
    ensures forall k :: 0 <= k < |text| && CoveredBy(links, k) ==>
      forall key :: key in LinkStyle ==> key in r.attributes[k] && r.attributes[k][key] == LinkStyle[key]
  {
    var base := new MutableAttributedString(text);
    base.AddAttributes(BaseAttributes(fontSize), NSRange(0, |text|));
    var mentioned := Highlighting(base.Snapshot(), RangeOfMentions(text, w), MentionStyle);
    r := Highlighting(mentioned, links, LinkStyle);
    forall k | 0 <= k < |text|
      ensures r.attributes[k] ==
        BaseAttributes(fontSize)
        + (if CoveredBy(RangeOfMentions(text, w), k) then MentionStyle else map[])
        + (if CoveredBy(links, k) then LinkStyle else map[])
    {
      assert base.attributes[k] == BaseAttributes(fontSize);
    }
  }

  /** `applyingTweetStyling()` called without a size: the base font is the
      system font at the default size 14. */
  method ApplyingDefaultTweetStyling(text: Text, w: WordClass, links: seq<NSRange>)
    returns (r: AttributedString)
    requires AllWithin(links, |text|)
    ensures r.Valid() && r.text == text
    ensures forall k :: 0 <= k < |text| ==> Font in r.attributes[k] && r.attributes[k][Font] == SystemFont(14.0)
    ensures forall k :: 0 <= k < |text| ==>
      r.attributes[k] ==
        BaseAttributes(DefaultFontSize)
        + (if CoveredBy(RangeOfMentions(text, w), k) then MentionStyle else map[])
        + (if CoveredBy(links, k) then LinkStyle else map[])
  {
    r := ApplyingTweetStyling(text, w, links, DefaultFontSize);
  }
}
