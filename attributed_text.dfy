/** Attributed strings as the styling code uses them: a text and, for every
    code unit of it, the dictionary of attributes in force there
    (`NSAttributedString`, `NSMutableAttributedString`, and the
    `highlighting(ranges:with:)` extension of Utils/String+Style.swift). */
module AttributedText {
  import opened Utf16Text

  /** Attribute keys; their meaning is not modelled. */
  datatype Key = Font | ForegroundColor | UnderlineStyle

  /** Attribute values, kept as opaque tokens. */
  datatype Value = SystemFont(size: real) | Color(name: string) | RawValue(raw: int)

  type Attributes = map<Key, Value>

  /** An immutable attributed string. */
  datatype AttributedString = AttributedString(text: Text, attributes: seq<Attributes>)
  {
    /** One dictionary per code unit. */
    predicate Valid() { |attributes| == |text| }
  }

  /** The dictionary the offset k carries after `dict` is laid over the ranges
      of `ranges`: the keys of `dict` take its values, other keys keep theirs. */
  function Layered(before: Attributes, ranges: seq<NSRange>, k: int, dict: Attributes): Attributes {
    if CoveredBy(ranges, k) then before + dict else before
  }

  class MutableAttributedString {
    var text: Text
    var attributes: seq<Attributes>

    ghost predicate Valid()
      reads this
    {
      |attributes| == |text|
    }

    /** `NSMutableAttributedString(string:)`: the text with no attributes. */
    constructor (str: Text)
      ensures Valid() && text == str
      ensures forall k :: 0 <= k < |text| ==> attributes[k] == map[]
    {
      text := str;
      attributes := seq(|str|, _ => map[]);
    }

    /** `NSMutableAttributedString(attributedString:)`: a mutable copy. */
    constructor Copy(s: AttributedString)
      requires s.Valid()
      ensures Valid() && text == s.text && attributes == s.attributes
    {
      text := s.text;
      attributes := s.attributes;
    }

    /** `addAttributes(_:range:)`: inside the range every key of `dict` takes
        its value from `dict` and every other key is kept; outside the range
        nothing changes. Foundation raises for a range that does not lie
        within the text, so callers must pass one that does. */
    method AddAttributes(dict: Attributes, range: NSRange)
      requires Valid() && range.Within(|text|)
      modifies this
      ensures Valid() && text == old(text)
      ensures forall k :: 0 <= k < |text| ==>
        attributes[k] == if range.Covers(k) then old(attributes[k]) + dict else old(attributes[k])
    {
      var current := attributes;
      attributes := seq(|current|, k requires 0 <= k < |current| =>
        if range.Covers(k) then current[k] + dict else current[k]);
    }

    /** The current contents as an immutable attributed string. */
    function Snapshot(): (s: AttributedString)
      reads this
      requires Valid()
      ensures s.Valid() && s.text == text && s.attributes == attributes
    {
      AttributedString(text, attributes)
    }
  }

  /** What layering means key by key: where a range covers the position, the
      keys of `dict` take its values; every other key, and every key at a
      position no range covers, keeps its presence and value. */
  lemma LayeredKeys(before: Attributes, ranges: seq<NSRange>, k: int, dict: Attributes, key: Key)
    ensures CoveredBy(ranges, k) && key in dict ==>
      key in Layered(before, ranges, k, dict) && Layered(before, ranges, k, dict)[key] == dict[key]
    ensures !(CoveredBy(ranges, k) && key in dict) ==>
      (key in Layered(before, ranges, k, dict) <==> key in before)
      && (key in before ==> Layered(before, ranges, k, dict)[key] == before[key])
  {
  }

  /** Laying the same dictionary over a position twice is laying it once. */
  lemma LayerTwice(before: Attributes, dict: Attributes)
    ensures (before + dict) + dict == before + dict
  {
  }

  /** `highlighting(ranges:with:)`: a copy of `s` with `dict` added over every
      range of the list, in list order. The text is unchanged; a position that
      some range covers has every key of `dict` set to its value and keeps its
      other keys; a position no range covers keeps its dictionary exactly. */
  method Highlighting(s: AttributedString, ranges: seq<NSRange>, dict: Attributes) returns (r: AttributedString)
    requires s.Valid() && AllWithin(ranges, |s.text|)
    ensures r.Valid() && r.text == s.text
    ensures forall k :: 0 <= k < |s.text| ==> r.attributes[k] == Layered(s.attributes[k], ranges, k, dict)
    ensures ranges == [] ==> r == s
  {
    var m := new MutableAttributedString.Copy(s);
    for i := 0 to |ranges|
      invariant m.Valid() && m.text == s.text
      invariant forall k :: 0 <= k < |s.text| ==> m.attributes[k] == Layered(s.attributes[k], ranges[..i], k, dict)
    {
      ghost var before := m.attributes;
      m.AddAttributes(dict, ranges[i]);
      forall k | 0 <= k < |s.text|
        ensures m.attributes[k] == Layered(s.attributes[k], ranges[..i + 1], k, dict)
      {
        LayerTwice(s.attributes[k], dict);
        if ranges[i].Covers(k) {
          assert ranges[..i + 1][i] == ranges[i];
        } else {
          assert CoveredBy(ranges[..i + 1], k) == CoveredBy(ranges[..i], k) by {
            if CoveredBy(ranges[..i + 1], k) {
              var j :| 0 <= j < i + 1 && ranges[..i + 1][j].Covers(k);
              assert ranges[..i][j] == ranges[j];
            }
            if CoveredBy(ranges[..i], k) {
              var j :| 0 <= j < i && ranges[..i][j].Covers(k);
              assert ranges[..i + 1][j] == ranges[j];
            }
          }
        }
      }
    }
    assert ranges[..|ranges|] == ranges;
    r := m.Snapshot();
    if ranges == [] {
      assert r.attributes == s.attributes;
    }
  }
}
