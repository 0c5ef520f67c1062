/**
 * The widget allow-list of the landing page: widget identifiers whose scope is one of
 * three namespaces, compared ignoring case. The identifiers come from the widget
 * definition provider and are taken here as the input sequence.
 */
module AreaRestrictionHelper {
  import opened Text
  import opened Seqs

  /** Scopes whose widgets may be placed on a landing page. */
  const AllowedScopes: seq<string> := ["Kentico.", "DancingGoat.General.", "DancingGoat.LandingPage."]

  /** `allowedScopes.Any(scope => id.StartsWith(scope, StringComparison.OrdinalIgnoreCase))`. */
  predicate InAllowedScope(id: string)
  {
    exists i :: 0 <= i < |AllowedScopes| && StartsWithIgnoreCase(id, AllowedScopes[i])
  }

  /** The landing-page filter, applied to the registered widget identifiers. */
  function GetLandingPageRestrictions(widgetIdentifiers: seq<string>): (allowed: seq<string>)
    ensures |allowed| <= |widgetIdentifiers|
    ensures IsSubsequence(allowed, widgetIdentifiers)
    ensures forall id :: id in allowed <==>
      id in widgetIdentifiers &&
      (StartsWithIgnoreCase(id, "Kentico.") ||
       StartsWithIgnoreCase(id, "DancingGoat.General.") ||
       StartsWithIgnoreCase(id, "DancingGoat.LandingPage."))
  {
    FilterIsSubsequence(InAllowedScope, widgetIdentifiers);
    forall id
      ensures InAllowedScope(id) <==>
        (StartsWithIgnoreCase(id, "Kentico.") ||
         StartsWithIgnoreCase(id, "DancingGoat.General.") ||
         StartsWithIgnoreCase(id, "DancingGoat.LandingPage."))
    {
      if StartsWithIgnoreCase(id, "Kentico.") { assert StartsWithIgnoreCase(id, AllowedScopes[0]); }
      if StartsWithIgnoreCase(id, "DancingGoat.General.") { assert StartsWithIgnoreCase(id, AllowedScopes[1]); }
      if StartsWithIgnoreCase(id, "DancingGoat.LandingPage.") { assert StartsWithIgnoreCase(id, AllowedScopes[2]); }
    }
    forall id ensures id in Filter(InAllowedScope, widgetIdentifiers) <==> id in widgetIdentifiers && InAllowedScope(id) {
      FilterMembership(InAllowedScope, widgetIdentifiers, id);
    }
    Filter(InAllowedScope, widgetIdentifiers)
  }

  /** An identifier is kept as often as it occurs in the input when it is in scope, and never otherwise. */
  lemma LandingPageRestrictionsCount(widgetIdentifiers: seq<string>, id: string)
    ensures multiset(GetLandingPageRestrictions(widgetIdentifiers))[id] ==
            if InAllowedScope(id) then multiset(widgetIdentifiers)[id] else 0
  {
    FilterCount(InAllowedScope, widgetIdentifiers, id);
  }

  /** With no identifier in scope the result is the empty array. */
  lemma NoScopedIdentifierGivesEmpty(widgetIdentifiers: seq<string>)
    requires forall i :: 0 <= i < |widgetIdentifiers| ==> !InAllowedScope(widgetIdentifiers[i])
    ensures GetLandingPageRestrictions(widgetIdentifiers) == []
  {
  }

  /** The scope prefix is matched ignoring case: a lower-case `kentico.` widget stays, a non-scoped one goes. */
  lemma ScopeMatchIgnoresCase()
    ensures GetLandingPageRestrictions(["kentico.x", "DancingGoat.Other"]) == ["kentico.x"]
  {
    assert StartsWithIgnoreCase("kentico.x", AllowedScopes[0]);
    assert !InAllowedScope("DancingGoat.Other") by {
      assert !StartsWithIgnoreCase("DancingGoat.Other", AllowedScopes[0]) by {
        assert UpperAscii("DancingGoat.Other"[0]) != UpperAscii(AllowedScopes[0][0]);
      }
      assert !StartsWithIgnoreCase("DancingGoat.Other", AllowedScopes[1]) by {
        assert UpperAscii("DancingGoat.Other"[12]) != UpperAscii(AllowedScopes[1][12]);
      }
      assert !StartsWithIgnoreCase("DancingGoat.Other", AllowedScopes[2]) by {
        assert UpperAscii("DancingGoat.Other"[12]) != UpperAscii(AllowedScopes[2][12]);
      }
    }
  }
}
