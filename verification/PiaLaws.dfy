/**
 The lookups of regions and servers letter by letter: which texts they take for the same, and what they find.
 */
module PiaLaws {
  import opened Prelude
  import opened PiaClient
  import opened RetrySchedule

  /** The same rune, or the two cases of one ASCII letter. */
  predicate SameLetter(a: rune, b: rune)
  {
    a == b || (65 <= a <= 90 && b == a + 32) || (65 <= b <= 90 && a == b + 32)
  }

  /** What strings.EqualFold takes for an ASCII rune: its letter, the Kelvin sign for a k and the long s for an s. */
  predicate Folds(a: rune, b: rune)
  {
    SameLetter(a, b) || ((a == 75 || a == 107) && b == 0x212A) || ((a == 83 || a == 115) && b == 0x17F)
  }

  /** What strings.ToLower takes for an ASCII rune: its letter, the Kelvin sign for a k and the dotted I for an i. */
  predicate Lowers(a: rune, b: rune)
  {
    SameLetter(a, b) || ((a == 75 || a == 107) && b == 0x212A) || ((a == 73 || a == 105) && b == 0x130)
  }

  predicate SameFolded(s: text, t: text) { |s| == |t| && forall i :: 0 <= i < |s| ==> Folds(s[i], t[i]) }

  predicate SameLowered(s: text, t: text) { |s| == |t| && forall i :: 0 <= i < |s| ==> Lowers(s[i], t[i]) }

  lemma RunesCompare(a: rune, b: rune)
    requires a < 128
    ensures FoldRune(a) == FoldRune(b) <==> Folds(a, b)
    ensures LowerRune(a) == LowerRune(b) <==> Lowers(a, b)
  {
  }

  lemma FoldsRuneByRune(s: text, t: text)
    requires Ascii(s)
    ensures EqualFold(s, t) <==> SameFolded(s, t)
  {
    forall i | 0 <= i < |s| && i < |t| ensures FoldRune(s[i]) == FoldRune(t[i]) <==> Folds(s[i], t[i]) {
      RunesCompare(s[i], t[i]);
    }
  }

  lemma LowersRuneByRune(s: text, t: text)
    requires Ascii(s)
    ensures ToLower(s) == ToLower(t) <==> SameLowered(s, t)
  {
    forall i | 0 <= i < |s| && i < |t| ensures ToLower(s)[i] == ToLower(t)[i] <==> Lowers(s[i], t[i]) {
      RunesCompare(s[i], t[i]);
    }
    if ToLower(s) == ToLower(t) {
      assert |s| == |ToLower(s)| == |ToLower(t)| == |t|;
    } else if |s| == |t| {
      assert exists i :: 0 <= i < |s| && ToLower(s)[i] != ToLower(t)[i];
    }
  }

  /** FindRegion finds the first region whose id is the text but for the case of its letters, the Kelvin sign and
      the long s; it finds none only if there is none. */
  lemma FindsByLetters(regions: seq<Region>, id: text)
    requires AsciiIds(regions)
    ensures match FirstRegion(regions, id)
      case Some(k) => k < |regions| && SameFolded(regions[k].id, id) &&
        forall j :: 0 <= j < k ==> !SameFolded(regions[j].id, id)
      case None => forall j :: 0 <= j < |regions| ==> !SameFolded(regions[j].id, id)
  {
    FirstRegionIsFirst(regions, id);
    forall j | 0 <= j < |regions| ensures EqualFold(regions[j].id, id) <==> SameFolded(regions[j].id, id) {
      FoldsRuneByRune(regions[j].id, id);
    }
  }

  /** The lower-case index knows the texts that are some region's id but for the case of the letters, the Kelvin
      sign and the dotted I. */
  lemma KnowsByLetters(regions: seq<Region>, id: text)
    requires AsciiIds(regions)
    ensures Known(regions, id) <==> exists i :: 0 <= i < |regions| && SameLowered(regions[i].id, id)
  {
    forall i | 0 <= i < |regions|
      ensures ToLower(regions[i].id) == ToLower(id) <==> SameLowered(regions[i].id, id)
    {
      LowersRuneByRune(regions[i].id, id);
    }
  }

  /** The cities whose region is some id by its letters. */
  function Selected(cities: seq<City>, regions: seq<Region>): seq<City>
    decreases |cities|
  {
    if cities == [] then []
    else
      var city := cities[|cities| - 1];
      Selected(cities[..|cities| - 1], regions)
      + (if exists i :: 0 <= i < |regions| && SameLowered(regions[i].id, city.region) then [city] else [])
  }

  /** What is kept of the cities: those with a region that the index knows, in the order of the configuration. */
  lemma {:induction false} KeepsInOrder(cities: seq<City>, regions: seq<Region>)
    requires AsciiIds(regions)
    ensures KeepKnown(cities, regions) == Selected(cities, regions)
    decreases |cities|
  {
    if cities == [] {
    } else {
      KeepsInOrder(cities[..|cities| - 1], regions);
      KnowsByLetters(regions, cities[|cities| - 1].region);
    }
  }

  /** A server is the preferred one: by its name if a name is preferred, and else by its address. */
  predicate Named(pref: Endpoint, s: Endpoint)
  {
    (pref.cn != [] && SameFolded(s.cn, pref.cn)) || (pref.cn == [] && pref.ip != [] && s.ip == pref.ip)
  }

  /** The preferred server is the first one with the preferred name, or without such a name with the preferred
      address. */
  lemma PreferredByLetters(pref: Endpoint, region: Region, r: Option<nat>)
    requires IsPreferred(pref, region, r) && forall i :: 0 <= i < |region.servers| ==> Ascii(region.servers[i].cn)
    ensures match r
      case Some(k) => k < |region.servers| && Named(pref, region.servers[k]) &&
        forall j :: 0 <= j < k ==> !Named(pref, region.servers[j])
      case None => forall j :: 0 <= j < |region.servers| ==> !Named(pref, region.servers[j])
  {
    forall j | 0 <= j < |region.servers|
      ensures EqualFold(region.servers[j].cn, pref.cn) <==> SameFolded(region.servers[j].cn, pref.cn)
    {
      FoldsRuneByRune(region.servers[j].cn, pref.cn);
    }
  }

  /** The region list is the first one that is answered, an empty one included, and never another. */
  lemma {:induction false} FirstAnswerStays(replies: seq<Result<seq<Region>, Error>>, k: nat)
    requires k <= |replies| && forall i :: 0 <= i < k ==> replies[i].Err?
    requires k < |replies| ==> replies[k].Ok?
    ensures AfterCalls(None, replies) == if k < |replies| then Some(replies[k].value) else None
    decreases |replies|
  {
    if replies == [] {
    } else {
      var n := |replies| - 1;
      FirstAnswerStays(replies[..n], if k < n then k else n);
    }
  }
}
