/** What `getAcceptPresetKey` promises its callers, proved of the model. */
module AcceptProperties {
  import opened StringOrder
  import opened Sorting
  import opened ArrayJoin
  import opened AcceptPresets

  /** Same MIME types, and for each of them the same extensions counted with multiplicity:
      equality of canonical forms, independent of any ordering. */
  predicate SameShape(a: MimeMap, b: MimeMap)
  {
    && a.Keys == b.Keys
    && forall k :: k in a ==> multiset(a[k]) == multiset(Lookup(b, k))
  }

  /** Every MIME type and every extension is non-empty and free of commas, so joining with
      commas is faithful. All the presets are clean. */
  predicate Clean(m: MimeMap)
  {
    forall k :: k in m ==> Word(k) && AllWords(m[k])
  }

  // ----- the string and absent cases -----

  lemma AbsentResolvesToDefault()
    ensures GetAcceptPresetKey(Absent) == DefaultKey
  {
  }

  lemma PresetKeyResolvesToItself(k: string)
    requires k in PresetKeys()
    ensures GetAcceptPresetKey(Key(k)) == k
  {
  }

  lemma UnknownKeyResolvesToDefault(s: string)
    requires s !in PresetKeys()
    ensures GetAcceptPresetKey(Key(s)) == DefaultKey
  {
  }

  /** Resolving a resolved key again changes nothing. */
  lemma ResolveIsIdempotent(accept: Accept)
    ensures GetAcceptPresetKey(Key(GetAcceptPresetKey(accept))) == GetAcceptPresetKey(accept)
  {
  }

  lemma EmptyMappingResolvesToDefault()
    ensures GetAcceptPresetKey(Mapping(map[])) == DefaultKey
  {
  }

  // ----- what the joined-string comparison decides -----

  lemma {:induction false} SortKeepsWords(xs: seq<string>)
    requires AllWords(xs)
    ensures AllWords(Sort(xs))
  {
    SortIsSortedPermutation(xs);
    forall i | 0 <= i < |Sort(xs)|
      ensures Word(Sort(xs)[i])
    {
      assert Sort(xs)[i] in multiset(Sort(xs));
      assert Sort(xs)[i] in multiset(xs);
    }
  }

  /** For comma-free non-empty MIME types, equal key forms mean equal key sets. */
  lemma KeysFormDeterminesKeys(a: MimeMap, b: MimeMap)
    requires forall k :: k in a ==> Word(k)
    requires forall k :: k in b ==> Word(k)
    requires KeysForm(a) == KeysForm(b)
    ensures a.Keys == b.Keys
  {
    var ka, kb := SortedKeys(a.Keys), SortedKeys(b.Keys);
    SortedKeysListsSet(a.Keys);
    SortedKeysListsSet(b.Keys);
    forall i | 0 <= i < |ka|
      ensures Word(ka[i])
    {
      assert ka[i] in multiset(ka);
    }
    forall i | 0 <= i < |kb|
      ensures Word(kb[i])
    {
      assert kb[i] in multiset(kb);
    }
    JoinInjective(ka, kb);
    SortedKeysInjective(a.Keys, b.Keys);
  }

  /** Mappings of the same shape always pass the comparison, whatever the order of their
      extensions. */
  lemma SameShapeMatches(a: MimeMap, p: MimeMap)
    requires SameShape(a, p)
    ensures Matches(a, p)
  {
    forall k | k in p
      ensures ExtensionsForm(Lookup(a, k)) == ExtensionsForm(p[k])
    {
      SortPermutationInvariant(Lookup(a, k), p[k]);
    }
  }

  /** On clean mappings the comparison is exactly shape equality: same MIME types, and the same
      extensions for each, in any order but counted with multiplicity. */
  lemma MatchesIffSameShape(a: MimeMap, p: MimeMap)
    requires Clean(a) && Clean(p)
    ensures Matches(a, p) <==> SameShape(a, p)
  {
    if Matches(a, p) {
      KeysFormDeterminesKeys(a, p);
      forall k | k in a
        ensures multiset(a[k]) == multiset(Lookup(p, k))
      {
        SortKeepsWords(a[k]);
        SortKeepsWords(p[k]);
        JoinInjective(Sort(a[k]), Sort(p[k]));
        SortIsSortedPermutation(a[k]);
        SortIsSortedPermutation(p[k]);
      }
    }
    if SameShape(a, p) {
      SameShapeMatches(a, p);
    }
  }

  lemma SingleExtensionForm(x: string)
    ensures ExtensionsForm([x]) == x
  {
    assert Sort([x]) == [x];
  }

  lemma JpegExtensionsForm()
    ensures ExtensionsForm([".jpeg", ".jpg"]) == ".jpeg,.jpg"
  {
    assert LexLe(".jpeg", ".jpg");
    assert Sort([".jpeg", ".jpg"]) == [".jpeg", ".jpg"];
  }

  // ----- facts about the preset table -----

  /** A table the comparison can tell apart: every mapping is clean and non-empty, and no two
      mappings name the same set of MIME types. */
  predicate Distinguishable(t: PresetTable)
  {
    && (forall i :: 0 <= i < |t| ==> Clean(t[i].1) && |t[i].1| > 0)
    && (forall i, j :: 0 <= i < j < |t| ==> t[i].1.Keys != t[j].1.Keys)
  }

  lemma PresetsAreClean(i: nat)
    requires i < |Presets()|
    ensures Clean(Presets()[i].1)
  {
  }

  /** No two presets name the same set of MIME types. */
  lemma PresetKeySetsDistinct(i: nat, j: nat)
    requires i < j < |Presets()|
    ensures Presets()[i].1.Keys != Presets()[j].1.Keys
  {
    var t := Presets();
    if j == 6 {
      assert "application/pdf" in t[6].1.Keys;
      assert "image/*" in t[6].1.Keys;
    } else {
      assert t[j].0 in t[j].1.Keys;
      assert t[i].0 in t[i].1.Keys;
    }
  }

  lemma PresetsDistinguishable()
    ensures Distinguishable(Presets())
  {
    forall i | 0 <= i < |Presets()|
      ensures Clean(Presets()[i].1)
    {
      PresetsAreClean(i);
    }
    forall i, j | 0 <= i < j < |Presets()|
      ensures Presets()[i].1.Keys != Presets()[j].1.Keys
    {
      PresetKeySetsDistinct(i, j);
    }
  }

  // ----- the search -----

  /** The search lands on the first entry that satisfies the predicate. */
  lemma FindFirstFinds<V>(t: seq<(string, V)>, p: V -> bool, i: nat)
    requires i < |t| && p(t[i].1)
    requires forall j :: 0 <= j < i ==> !p(t[j].1)
    ensures FindFirst(t, p) == Some(i)
  {
    FindFirstSpec(t, p);
    var r := FindFirst(t, p);
    assert p(t[r.value].1);
  }

  /** Predicates that agree on every entry find the same entry. */
  lemma {:induction false} FindFirstAgrees<V>(t: seq<(string, V)>, p: V -> bool, q: V -> bool)
    requires forall j :: 0 <= j < |t| ==> p(t[j].1) == q(t[j].1)
    ensures FindFirst(t, p) == FindFirst(t, q)
  {
    if |t| > 0 {
      assert p(t[0].1) == q(t[0].1);
      forall j | 0 <= j < |t[1..]|
        ensures p(t[1..][j].1) == q(t[1..][j].1)
      {
        assert t[1..][j] == t[j + 1];
      }
      FindFirstAgrees(t[1..], p, q);
    }
  }

  // ----- resolution of mappings over any distinguishable table -----

  /** A non-empty mapping resolves to the first entry it matches. */
  lemma FirstMatchResolves(t: PresetTable, a: MimeMap, i: nat)
    requires |a| > 0
    requires i < |t| && Matches(a, t[i].1)
    requires forall j :: 0 <= j < i ==> !Matches(a, t[j].1)
    ensures Resolve(t, Mapping(a)) == t[i].0
  {
    var p := (preset: MimeMap) => Matches(a, preset);
    FindFirstFinds(t, p, i);
  }

  /** A mapping with clean MIME types passes the comparison with no entry before `i` whose
      MIME type set differs from its own. */
  lemma NoEarlierEntryMatches(t: PresetTable, a: MimeMap, i: nat)
    requires Distinguishable(t)
    requires i <= |t|
    requires forall k :: k in a ==> Word(k)
    requires forall j :: 0 <= j < i ==> a.Keys != t[j].1.Keys
    ensures forall j :: 0 <= j < i ==> !Matches(a, t[j].1)
  {
    forall j | 0 <= j < i
      ensures !Matches(a, t[j].1)
    {
      if Matches(a, t[j].1) {
        KeysFormDeterminesKeys(a, t[j].1);
      }
    }
  }

  /** A mapping with the MIME types of entry `i` passes the comparison with no earlier entry. */
  lemma NoEarlierEntryMatchesSameKeys(t: PresetTable, a: MimeMap, i: nat)
    requires Distinguishable(t)
    requires i < |t| && a.Keys == t[i].1.Keys
    ensures forall j :: 0 <= j < i ==> !Matches(a, t[j].1)
  {
    assert Clean(t[i].1);
    assert forall j :: 0 <= j < i ==> t[j].1.Keys != t[i].1.Keys;
    NoEarlierEntryMatches(t, a, i);
  }

  /** A mapping with the MIME types of entry `i` that passes the comparison with entry `i`
      resolves to it, clean extensions or not. */
  lemma SameKeysMatchResolves(t: PresetTable, a: MimeMap, i: nat)
    requires Distinguishable(t)
    requires i < |t| && a.Keys == t[i].1.Keys && Matches(a, t[i].1)
    ensures Resolve(t, Mapping(a)) == t[i].0
  {
    assert |a| > 0 by {
      assert |a.Keys| == |t[i].1.Keys|;
    }
    NoEarlierEntryMatchesSameKeys(t, a, i);
    FirstMatchResolves(t, a, i);
  }

  /** A clean mapping of the same shape as entry `i` matches entry `i` and no other. */
  lemma OnlySameShapedEntryMatches(t: PresetTable, a: MimeMap, i: nat)
    requires Distinguishable(t) && Clean(a)
    requires i < |t| && SameShape(a, t[i].1)
    ensures forall j :: 0 <= j < |t| ==> (Matches(a, t[j].1) <==> j == i)
  {
    SameShapeMatches(a, t[i].1);
    forall j | 0 <= j < |t| && j != i
      ensures !Matches(a, t[j].1)
    {
      MatchesIffSameShape(a, t[j].1);
      assert i < j ==> t[i].1.Keys != t[j].1.Keys;
      assert j < i ==> t[j].1.Keys != t[i].1.Keys;
    }
  }

  lemma SameShapedMappingResolvesIn(t: PresetTable, a: MimeMap, i: nat)
    requires Distinguishable(t) && Clean(a)
    requires i < |t| && SameShape(a, t[i].1)
    ensures Resolve(t, Mapping(a)) == t[i].0
  {
    assert |a| > 0 by {
      assert |a.Keys| == |t[i].1.Keys|;
    }
    OnlySameShapedEntryMatches(t, a, i);
    FirstMatchResolves(t, a, i);
  }

  /** A mapping with the MIME types of entry `i` but another shape has the shape of no entry. */
  lemma ShapedLikeNoEntry(t: PresetTable, a: MimeMap, i: nat)
    requires Distinguishable(t)
    requires i < |t| && a.Keys == t[i].1.Keys && !SameShape(a, t[i].1)
    ensures forall j :: 0 <= j < |t| ==> !SameShape(a, t[j].1)
  {
    assert forall j :: 0 <= j < |t| && j != i ==> t[j].1.Keys != t[i].1.Keys;
  }

  lemma UnshapedMappingResolvesToDefaultIn(t: PresetTable, a: MimeMap)
    requires Distinguishable(t) && Clean(a)
    requires forall i :: 0 <= i < |t| ==> !SameShape(a, t[i].1)
    ensures Resolve(t, Mapping(a)) == DefaultKey
  {
    ResolveFindsMatch(t, a);
    forall i | 0 <= i < |t|
      ensures !Matches(a, t[i].1)
    {
      MatchesIffSameShape(a, t[i].1);
    }
  }

  /** Mappings of the same shape pass or fail the comparison with any preset together. */
  lemma SameShapeMatchesAlike(a: MimeMap, b: MimeMap, preset: MimeMap)
    requires SameShape(a, b)
    ensures Matches(a, preset) == Matches(b, preset)
  {
    forall k | k in preset
      ensures ExtensionsForm(Lookup(a, k)) == ExtensionsForm(Lookup(b, k))
    {
      SortPermutationInvariant(Lookup(a, k), Lookup(b, k));
    }
  }

  lemma ResolutionIgnoresExtensionOrderIn(t: PresetTable, a: MimeMap, b: MimeMap)
    requires SameShape(a, b)
    ensures Resolve(t, Mapping(a)) == Resolve(t, Mapping(b))
  {
    var pa := (preset: MimeMap) => Matches(a, preset);
    var pb := (preset: MimeMap) => Matches(b, preset);
    assert |a| == |b| by {
      assert |a.Keys| == |b.Keys|;
    }
    forall j | 0 <= j < |t|
      ensures pa(t[j].1) == pb(t[j].1)
    {
      SameShapeMatchesAlike(a, b, t[j].1);
    }
    FindFirstAgrees(t, pa, pb);
  }

  /** Round trip over any distinguishable table: an entry's own mapping resolves to its key. */
  lemma EntryMappingRoundTrip(t: PresetTable, i: nat)
    requires Distinguishable(t) && i < |t|
    ensures Resolve(t, Mapping(t[i].1)) == t[i].0
  {
    SameShapedMappingResolvesIn(t, t[i].1, i);
  }

  // ----- resolution of mappings against the preset table -----

  /** A clean mapping of the same shape as preset `i` resolves to preset `i`: no other preset
      can match it, since the presets' MIME type sets differ. */
  lemma SameShapedMappingResolvesToPreset(a: MimeMap, i: nat)
    requires Clean(a)
    requires i < |Presets()| && SameShape(a, Presets()[i].1)
    ensures GetAcceptPresetKey(Mapping(a)) == Presets()[i].0
  {
    PresetsDistinguishable();
    SameShapedMappingResolvesIn(Presets(), a, i);
  }

  /** A clean mapping shaped like no preset falls back to the default. */
  lemma UnshapedMappingResolvesToDefault(a: MimeMap)
    requires Clean(a)
    requires forall i :: 0 <= i < |Presets()| ==> !SameShape(a, Presets()[i].1)
    ensures GetAcceptPresetKey(Mapping(a)) == DefaultKey
  {
    PresetsDistinguishable();
    UnshapedMappingResolvesToDefaultIn(Presets(), a);
  }

  /** A mapping with the MIME types of preset `i` that passes the comparison with preset `i`
      resolves to it. */
  lemma SameKeysMatchResolvesToPreset(a: MimeMap, i: nat)
    requires i < |Presets()| && a.Keys == Presets()[i].1.Keys && Matches(a, Presets()[i].1)
    ensures GetAcceptPresetKey(Mapping(a)) == Presets()[i].0
  {
    PresetsDistinguishable();
    SameKeysMatchResolves(Presets(), a, i);
  }

  /** Round trip: passing a preset's own mapping yields that preset's key. */
  lemma PresetMappingRoundTrip(i: nat)
    requires i < |Presets()|
    ensures GetAcceptPresetKey(Mapping(Presets()[i].1)) == Presets()[i].0
  {
    PresetsDistinguishable();
    EntryMappingRoundTrip(Presets(), i);
  }

  /** Two mappings of the same shape resolve alike: the order of the extensions within an
      entry never matters, for clean and unclean mappings alike. */
  lemma ResolutionIgnoresExtensionOrder(a: MimeMap, b: MimeMap)
    requires SameShape(a, b)
    ensures GetAcceptPresetKey(Mapping(a)) == GetAcceptPresetKey(Mapping(b))
  {
    ResolutionIgnoresExtensionOrderIn(Presets(), a, b);
  }

  // ----- worked examples -----

  lemma JpegExtensionsInEitherOrder()
    ensures GetAcceptPresetKey(Mapping(map["image/jpeg" := [".jpg", ".jpeg"]])) == "image/jpeg"
  {
    var a := map["image/jpeg" := [".jpg", ".jpeg"]];
    assert multiset(a["image/jpeg"]) == multiset(Presets()[1].1["image/jpeg"]);
    SameShapedMappingResolvesToPreset(a, 1);
  }

  lemma PngMatchesExactly()
    ensures GetAcceptPresetKey(Mapping(map["image/png" := [".png"]])) == "image/png"
  {
    SameShapedMappingResolvesToPreset(map["image/png" := [".png"]], 2);
  }

  lemma ImagesAndPdfMatches()
    ensures GetAcceptPresetKey(Mapping(map["application/pdf" := [".pdf"], "image/*" := []])) == "images-and-pdf"
  {
    SameShapedMappingResolvesToPreset(map["application/pdf" := [".pdf"], "image/*" := []], 6);
  }

  /** Extensions are not deduplicated: a repeated extension defeats the match. */
  lemma DuplicateExtensionFallsBack()
    ensures GetAcceptPresetKey(Mapping(map["image/png" := [".png", ".png"]])) == DefaultKey
  {
    var a := map["image/png" := [".png", ".png"]];
    assert a.Keys == Presets()[2].1.Keys;
    assert |multiset(a["image/png"])| != |multiset(Lookup(Presets()[2].1, "image/png"))|;
    PresetsDistinguishable();
    ShapedLikeNoEntry(Presets(), a, 2);
    UnshapedMappingResolvesToDefault(a);
  }

  /** Extensions are compared case-sensitively. */
  lemma UpperCaseExtensionFallsBack()
    ensures GetAcceptPresetKey(Mapping(map["image/png" := [".PNG"]])) == DefaultKey
  {
    var a := map["image/png" := [".PNG"]];
    assert a.Keys == Presets()[2].1.Keys;
    assert ".PNG" !in multiset(Lookup(Presets()[2].1, "image/png"));
    PresetsDistinguishable();
    ShapedLikeNoEntry(Presets(), a, 2);
    UnshapedMappingResolvesToDefault(a);
  }

  /** `[".jpeg,.jpg"]` is not the JPEG preset's `[".jpeg", ".jpg"]`, yet the two join alike. */
  lemma CommaExtensionMatchesJpeg()
    ensures map["image/jpeg" := [".jpeg,.jpg"]].Keys == Presets()[1].1.Keys
    ensures Matches(map["image/jpeg" := [".jpeg,.jpg"]], Presets()[1].1)
    ensures !SameShape(map["image/jpeg" := [".jpeg,.jpg"]], Presets()[1].1)
  {
    var a := map["image/jpeg" := [".jpeg,.jpg"]];
    JpegExtensionsForm();
    SingleExtensionForm(".jpeg,.jpg");
    assert a.Keys == Presets()[1].1.Keys;
    assert ".jpeg,.jpg" !in multiset(Presets()[1].1["image/jpeg"]);
  }

  /** Joining with commas lets one extension holding a comma pass for two: the mapping
      resolves to the JPEG preset although its shape differs. */
  lemma CommaInExtensionPassesForTwo()
    ensures GetAcceptPresetKey(Mapping(map["image/jpeg" := [".jpeg,.jpg"]])) == "image/jpeg"
  {
    var a := map["image/jpeg" := [".jpeg,.jpg"]];
    assert GetAcceptPresetKey(Mapping(a)) == "image/jpeg" by {
      assert a.Keys == Presets()[1].1.Keys && Matches(a, Presets()[1].1) by {
        CommaExtensionMatchesJpeg();
      }
      SameKeysMatchResolvesToPreset(a, 1);
    }
  }

  /** `[""]` is not `[]`, yet the two join alike. */
  lemma EmptyExtensionMatchesImagesAndPdf()
    ensures map["image/*" := [""], "application/pdf" := [".pdf"]].Keys == Presets()[6].1.Keys
    ensures Matches(map["image/*" := [""], "application/pdf" := [".pdf"]], Presets()[6].1)
    ensures !SameShape(map["image/*" := [""], "application/pdf" := [".pdf"]], Presets()[6].1)
  {
    var a := map["image/*" := [""], "application/pdf" := [".pdf"]];
    SingleExtensionForm("");
    SingleExtensionForm(".pdf");
    assert a.Keys == Presets()[6].1.Keys;
    assert |multiset(a["image/*"])| != |multiset(Lookup(Presets()[6].1, "image/*"))|;
  }

  /** Joining also cannot tell `[]` from `[""]`: an empty extension passes for none. */
  lemma EmptyExtensionPassesForNone()
    ensures GetAcceptPresetKey(Mapping(map["image/*" := [""], "application/pdf" := [".pdf"]])) == "images-and-pdf"
  {
    var a := map["image/*" := [""], "application/pdf" := [".pdf"]];
    assert GetAcceptPresetKey(Mapping(a)) == "images-and-pdf" by {
      assert a.Keys == Presets()[6].1.Keys && Matches(a, Presets()[6].1) by {
        EmptyExtensionMatchesImagesAndPdf();
      }
      SameKeysMatchResolvesToPreset(a, 6);
    }
  }
}
