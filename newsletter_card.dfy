/**
 * The tag row of a newsletter card (`src/components/newsletter/NewsletterCard.tsx`):
 * the first five tags as badges, then a "+k more" badge for the rest.
 */
module NewsletterCard {
  import opened Js
  import opened Numeric

  const MaxShownTags := 5

  /** `tags.slice(0, 5)`: the leading tags, at most five, in order. */
  function ShownTags(tags: seq<string>): (shown: seq<string>)
    ensures |shown| <= MaxShownTags && |shown| <= |tags|
    ensures |shown| == MaxShownTags || |shown| == |tags|
    ensures forall i :: 0 <= i < |shown| ==> shown[i] == tags[i]
  {
    tags[..if |tags| < MaxShownTags then |tags| else MaxShownTags]
  }

  /** The number on the "+k more" badge, when there is one. */
  function HiddenCount(tags: seq<string>): (k: Option<nat>)
    ensures k.Some? <==> |tags| > MaxShownTags
    ensures k.Some? ==> k.value >= 1 && k.value == |tags| - MaxShownTags
  {
    if |tags| > MaxShownTags then Some(|tags| - MaxShownTags) else None
  }

  /** The badge's text, `+{k} more`. */
  function MoreBadge(tags: seq<string>): (text: Option<string>)
    ensures text.Some? <==> HiddenCount(tags).Some?
    ensures text.Some? ==> text.value == "+" + ShowNat(|tags| - MaxShownTags) + " more"
  {
    match HiddenCount(tags)
    case Some(k) => Some("+" + ShowNat(k) + " more")
    case None => None
  }

  /** The badge's number reads back as exactly the tags left off the row. */
  lemma MoreBadgeCountsHidden(tags: seq<string>)
    requires |tags| > MaxShownTags
    ensures var text := MoreBadge(tags).value;
      && |text| >= 7 && text[0] == '+' && text[|text| - 5..] == " more"
      && IsDigits(text[1..|text| - 5])
      && DecimalValue(text[1..|text| - 5]) + |ShownTags(tags)| == |tags|
  {
    var digits := ShowNat(|tags| - MaxShownTags);
    var text := MoreBadge(tags).value;
    assert text == "+" + digits + " more";
    assert text[1..|text| - 5] == digits;
    DecimalValueOfShowNat(|tags| - MaxShownTags);
  }

  /** Every tag is accounted for: the shown badges and the hidden count add up to the number of tags. */
  lemma ShownPlusHiddenIsAll(tags: seq<string>)
    ensures |ShownTags(tags)| + (if HiddenCount(tags).Some? then HiddenCount(tags).value else 0) == |tags|
    ensures HiddenCount(tags).Some? ==> tags == ShownTags(tags) + tags[MaxShownTags..]
  {
    if |tags| > MaxShownTags {
      assert tags == tags[..MaxShownTags] + tags[MaxShownTags..];
    }
  }

  /** Five tags or fewer: all of them shown, and no "+k more" badge. */
  lemma FewTagsAllShown(tags: seq<string>)
    requires |tags| <= MaxShownTags
    ensures ShownTags(tags) == tags && MoreBadge(tags).None?
  {
  }
}
