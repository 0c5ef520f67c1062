/**
 * Widget allow-lists for widget zones: every registered widget except one restricted
 * identifier. `List<string>.Contains` compares ordinally, so the match is exact.
 */
module ZoneRestrictions {
  import opened Seqs

  /** `HeroImageWidgetViewComponent.IDENTIFIER`. */
  const HeroImageIdentifier: string := "DancingGoat.LandingPage.HeroImage"

  /** `CardWidgetViewComponent.IDENTIFIER`. */
  const CardWidgetIdentifier: string := "DancingGoat.LandingPage.CardWidget"

  /** `source.Where(id => !restrictedWidgets.Contains(id))`. */
  function WithoutRestricted(restrictedWidgets: seq<string>, source: seq<string>): (r: seq<string>)
    ensures |r| <= |source|
    ensures IsSubsequence(r, source)
    ensures forall id :: id in r <==> id in source && id !in restrictedWidgets
    ensures forall id :: multiset(r)[id] == if id in restrictedWidgets then 0 else multiset(source)[id]
  {
    var keep := id => id !in restrictedWidgets;
    FilterIsSubsequence(keep, source);
    forall id ensures multiset(Filter(keep, source))[id] == if id in restrictedWidgets then 0 else multiset(source)[id] {
      FilterCount(keep, source, id);
    }
    forall id ensures id in Filter(keep, source) <==> id in source && id !in restrictedWidgets {
      FilterMembership(keep, source, id);
    }
    Filter(keep, source)
  }

  /** Widgets allowed in narrow zones (25%, 33%, 50%): all but the hero image. */
  function GetNarrowZoneRestrictions(widgetIdentifiers: seq<string>): (allowed: seq<string>)
    ensures IsSubsequence(allowed, widgetIdentifiers)
    ensures forall id :: id in allowed <==> id in widgetIdentifiers && id != HeroImageIdentifier
  {
    WithoutRestricted([HeroImageIdentifier], widgetIdentifiers)
  }

  /** Widgets allowed in wide zones (75%): all but the card widget. */
  function GetWideZoneRestrictions(widgetIdentifiers: seq<string>): (allowed: seq<string>)
    ensures IsSubsequence(allowed, widgetIdentifiers)
    ensures forall id :: id in allowed <==> id in widgetIdentifiers && id != CardWidgetIdentifier
  {
    WithoutRestricted([CardWidgetIdentifier], widgetIdentifiers)
  }

  /** Each zone keeps the other zone's restricted widget: the card fits narrow zones, the hero image wide ones. */
  lemma RestrictionsAreComplementary(widgetIdentifiers: seq<string>)
    ensures CardWidgetIdentifier in widgetIdentifiers ==> CardWidgetIdentifier in GetNarrowZoneRestrictions(widgetIdentifiers)
    ensures HeroImageIdentifier in widgetIdentifiers ==> HeroImageIdentifier in GetWideZoneRestrictions(widgetIdentifiers)
    ensures HeroImageIdentifier !in GetNarrowZoneRestrictions(widgetIdentifiers)
    ensures CardWidgetIdentifier !in GetWideZoneRestrictions(widgetIdentifiers)
  {
  }

  /** The exclusion is case-sensitive: a differently-cased hero-image identifier stays in narrow zones. */
  lemma ExclusionIsCaseSensitive()
    ensures GetNarrowZoneRestrictions(["dancinggoat.landingpage.heroimage"]) == ["dancinggoat.landingpage.heroimage"]
  {
    var other := "dancinggoat.landingpage.heroimage";
    assert other != HeroImageIdentifier by { assert other[0] != HeroImageIdentifier[0]; }
    assert Filter(id => id !in [HeroImageIdentifier], [other]) == [other];
  }
}
