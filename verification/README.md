# Accept-preset resolver of the image upload field

The form builder's image upload field takes an `accept` setting in react-dropzone's shape.
The field's settings describe it by one of seven named presets. `src/lib/image-upload-accept.ts`
holds the preset table `ACCEPT_PRESETS`, a parallel label table `ACCEPT_PRESET_LABELS`, and the
resolver `getAcceptPresetKey`. The resolver maps a caller's `accept` value back to a preset key:

- an absent value (`undefined` or `null`) gives `"image/*"`;
- a string is kept when it is a preset key, and otherwise gives `"image/*"`;
- an empty mapping gives `"image/*"`;
- any other mapping gives the first preset, in declaration order, that it matches, or `"image/*"`
  when none does.

Two mappings match when two checks pass:

- Their sorted MIME type lists, joined with commas, are equal.
- For every MIME type of the preset, the two sorted extension lists, joined with commas, are
  equal. A MIME type missing from the caller's mapping counts as an empty list.

The model keeps that comparison exactly as written. Its parts:

- `string_order.dfy` (`StringOrder`): the order that `Array.prototype.sort()` uses with no
  comparator. It compares characters lexicographically, and a proper prefix sorts first. The
  module proves that this order is a total order.
- `sorting.dfy` (`Sorting`): insertion sort on string lists. Two results are proved:
  - the sorted list is unique;
  - sorting any enumeration of a key set gives the same list (`SortedKeys`). This is the model
    of `Object.keys(m).sort()`.
- `join.dfy` (`ArrayJoin`): `join(",")`. Joining is proved injective on lists of non-empty,
  comma-free strings.
- `accept_presets.dfy` (`AcceptPresets`):
  - the caller's value, as the datatype `Absent | Key(string) | Mapping(map<string, seq<string>>)`;
  - the two tables, as ordered sequences;
  - the comparison `Matches`;
  - the first-match search `FindFirst`;
  - the resolver `Resolve`, which takes the table as a parameter;
  - `GetAcceptPresetKey`, which is `Resolve` applied to the preset table.
- `accept_properties.dfy` (`AcceptProperties`): the resolver's promises. The central one:
  - for clean mappings the joined-string comparison is exactly *shape* equality: the same MIME
    types, and for each one the same extensions in any order, counted with multiplicity;
  - a mapping is *clean* when every MIME type and extension is non-empty and has no comma;
  - a clean mapping therefore resolves to the preset of its shape, or to `"image/*"` when no
    preset has that shape.

  The module also holds the round trip for every preset and independence from extension order.
  Worked examples show that duplicate extensions and upper-case extensions fall back to the
  default. Two other examples show the comparison's blind spots:
  - an extension that contains a comma can pass for two extensions;
  - an empty-string extension can pass for an empty list.

## Model

| member | source | states |
|---|---|---|
| StringOrder.LexLeReflexive | src/lib/image-upload-accept.ts:34 | every string sorts no later than itself under the default sort order |
| StringOrder.LexLeTotal | src/lib/image-upload-accept.ts:34 | any two strings are comparable under the default sort order |
| StringOrder.LexLeAntisymmetric | src/lib/image-upload-accept.ts:34 | two strings that each sort no later than the other are equal |
| StringOrder.LexLeTransitive | src/lib/image-upload-accept.ts:34 | the default sort order is transitive |
| Sorting.InsertKeepsSorted | src/lib/image-upload-accept.ts:39-40 | inserting into a sorted list keeps it sorted and adds exactly the new element |
| Sorting.SortIsSortedPermutation | src/lib/image-upload-accept.ts:39-40 | `sort()` returns an ascending permutation of its input |
| Sorting.SortedUnique | src/lib/image-upload-accept.ts:39-40 | two ascending lists with the same elements, counted with multiplicity, are equal |
| Sorting.SortPermutationInvariant | src/lib/image-upload-accept.ts:39-40 | sorted extension lists depend only on the multiset of extensions, not on their order |
| Sorting.LeastExists | src/lib/image-upload-accept.ts:34 | every non-empty key set has a least key under the default sort order |
| Sorting.SortedKeysListsSet | src/lib/image-upload-accept.ts:34-35 | the sorted key list is ascending and lists each key of the set exactly once |
| Sorting.SortedKeysIsSortOfAnyEnumeration | src/lib/image-upload-accept.ts:34-35 | sorting `Object.keys` gives the same list whatever order the keys are enumerated in |
| Sorting.SortedKeysInjective | src/lib/image-upload-accept.ts:34-36 | different key sets never give the same sorted key list |
| ArrayJoin.JoinStartsWithHead | src/lib/image-upload-accept.ts:34 | a joined list begins with its first element, followed by a comma when more elements follow |
| ArrayJoin.JoinInjective | src/lib/image-upload-accept.ts:34-40 | `join(",")` of lists of non-empty comma-free strings loses no information |
| AcceptPresets.Presets | src/lib/image-upload-accept.ts:4-15 | seven presets with distinct keys, `"image/*"` first, each naming at least one MIME type |
| AcceptPresets.PresetLabels | src/lib/image-upload-accept.ts:17-25 | the label table has exactly the preset table's keys, in the same order |
| AcceptPresets.FindFirstSpec | src/lib/image-upload-accept.ts:32-42 | `find` returns the first entry satisfying the predicate, and nothing only when no entry does |
| AcceptPresets.Resolve | src/lib/image-upload-accept.ts:27-44 | whatever the input, the result is the default key or a key of the table |
| AcceptPresets.ResolveFindsMatch | src/lib/image-upload-accept.ts:31-43 | a mapping resolves to a key other than the default only through an entry it matches, and a non-empty mapping that matches some entry resolves to a matching entry |
| AcceptPresets.GetAcceptPresetKey | src/lib/image-upload-accept.ts:27-44 | total: every input resolves to one of the seven preset keys, never an error |
| AcceptProperties.AbsentResolvesToDefault | src/lib/image-upload-accept.ts:28 | an absent value resolves to `"image/*"` |
| AcceptProperties.PresetKeyResolvesToItself | src/lib/image-upload-accept.ts:29-30 | a preset key given as a string resolves to itself |
| AcceptProperties.UnknownKeyResolvesToDefault | src/lib/image-upload-accept.ts:29-30 | a string that is not a preset key resolves to `"image/*"` |
| AcceptProperties.ResolveIsIdempotent | src/lib/image-upload-accept.ts:27-44 | resolving a resolved key again gives the same key |
| AcceptProperties.EmptyMappingResolvesToDefault | src/lib/image-upload-accept.ts:31 | a mapping with no entries resolves to `"image/*"` |
| AcceptProperties.SortKeepsWords | src/lib/image-upload-accept.ts:39-40 | sorting a list of clean extensions leaves only clean extensions |
| AcceptProperties.KeysFormDeterminesKeys | src/lib/image-upload-accept.ts:34-36 | for clean MIME types, equal joined key lists mean equal key sets |
| AcceptProperties.SameShapeMatches | src/lib/image-upload-accept.ts:34-41 | mappings of the same shape always pass the comparison |
| AcceptProperties.MatchesIffSameShape | src/lib/image-upload-accept.ts:34-41 | for clean mappings, passing the comparison is equivalent to having the same shape (both directions) |
| AcceptProperties.SingleExtensionForm | src/lib/image-upload-accept.ts:39-40 | a one-extension list compares as that extension itself |
| AcceptProperties.JpegExtensionsForm | src/lib/image-upload-accept.ts:6 | the JPEG preset's extensions compare as `".jpeg,.jpg"` |
| AcceptProperties.PresetsAreClean | src/lib/image-upload-accept.ts:4-15 | every preset's MIME types and extensions are non-empty and comma-free |
| AcceptProperties.PresetKeySetsDistinct | src/lib/image-upload-accept.ts:4-15 | no two presets name the same set of MIME types |
| AcceptProperties.PresetsDistinguishable | src/lib/image-upload-accept.ts:4-15 | the preset table is clean, non-empty per entry, and pairwise different in MIME types |
| AcceptProperties.FindFirstFinds | src/lib/image-upload-accept.ts:32-42 | `find` returns the entry that satisfies the predicate when no earlier entry does |
| AcceptProperties.FindFirstAgrees | src/lib/image-upload-accept.ts:32-42 | predicates that agree on every entry make `find` return the same entry |
| AcceptProperties.FirstMatchResolves | src/lib/image-upload-accept.ts:31-43 | a non-empty mapping resolves to the key of the first entry it matches |
| AcceptProperties.NoEarlierEntryMatches | src/lib/image-upload-accept.ts:34-36 | an entry with a different set of clean MIME types never matches |
| AcceptProperties.NoEarlierEntryMatchesSameKeys | src/lib/image-upload-accept.ts:32-36 | a mapping with the MIME types of entry `i` matches no earlier entry |
| AcceptProperties.SameKeysMatchResolves | src/lib/image-upload-accept.ts:32-43 | a mapping that has entry `i`'s MIME types and matches entry `i` resolves to entry `i`, clean extensions or not |
| AcceptProperties.OnlySameShapedEntryMatches | src/lib/image-upload-accept.ts:32-41 | a clean mapping of entry `i`'s shape matches entry `i` and no other entry |
| AcceptProperties.SameShapedMappingResolvesIn | src/lib/image-upload-accept.ts:27-44 | over a distinguishable table, a clean mapping of entry `i`'s shape resolves to entry `i` |
| AcceptProperties.ShapedLikeNoEntry | src/lib/image-upload-accept.ts:32-41 | a mapping with entry `i`'s MIME types but another shape has the shape of no entry |
| AcceptProperties.UnshapedMappingResolvesToDefaultIn | src/lib/image-upload-accept.ts:42-43 | over a distinguishable table, a clean mapping shaped like no entry resolves to the default |
| AcceptProperties.SameShapeMatchesAlike | src/lib/image-upload-accept.ts:37-41 | two mappings of the same shape pass or fail the comparison with any preset together |
| AcceptProperties.ResolutionIgnoresExtensionOrderIn | src/lib/image-upload-accept.ts:32-43 | over any table, two mappings of the same shape resolve to the same key |
| AcceptProperties.EntryMappingRoundTrip | src/lib/image-upload-accept.ts:31-43 | over a distinguishable table, each entry's own mapping resolves to that entry's key |
| AcceptProperties.SameShapedMappingResolvesToPreset | src/lib/image-upload-accept.ts:27-44 | a clean mapping of preset `i`'s shape resolves to preset `i` |
| AcceptProperties.UnshapedMappingResolvesToDefault | src/lib/image-upload-accept.ts:42-43 | a clean mapping shaped like no preset resolves to `"image/*"` |
| AcceptProperties.SameKeysMatchResolvesToPreset | src/lib/image-upload-accept.ts:32-43 | a mapping with preset `i`'s MIME types that passes the comparison with preset `i` resolves to it |
| AcceptProperties.PresetMappingRoundTrip | src/lib/image-upload-accept.ts:4-43 | resolving a preset's own mapping gives that preset's key, for all seven presets |
| AcceptProperties.ResolutionIgnoresExtensionOrder | src/lib/image-upload-accept.ts:39-40 | the result does not depend on the order of extensions within an entry |
| AcceptProperties.JpegExtensionsInEitherOrder | src/lib/image-upload-accept.ts:6 | `{"image/jpeg": [".jpg", ".jpeg"]}` resolves to `"image/jpeg"` |
| AcceptProperties.PngMatchesExactly | src/lib/image-upload-accept.ts:7 | `{"image/png": [".png"]}` resolves to `"image/png"` |
| AcceptProperties.ImagesAndPdfMatches | src/lib/image-upload-accept.ts:11-14 | `{"application/pdf": [".pdf"], "image/*": []}` resolves to `"images-and-pdf"` |
| AcceptProperties.DuplicateExtensionFallsBack | src/lib/image-upload-accept.ts:39-40 | extensions are not deduplicated: `{"image/png": [".png", ".png"]}` falls back to `"image/*"` |
| AcceptProperties.UpperCaseExtensionFallsBack | src/lib/image-upload-accept.ts:39-40 | extensions are case-sensitive: `{"image/png": [".PNG"]}` falls back to `"image/*"` |
| AcceptProperties.CommaExtensionMatchesJpeg | src/lib/image-upload-accept.ts:39-40 | `[".jpeg,.jpg"]` differs in shape from the JPEG preset yet passes its comparison |
| AcceptProperties.CommaInExtensionPassesForTwo | src/lib/image-upload-accept.ts:39-40 | `{"image/jpeg": [".jpeg,.jpg"]}` resolves to `"image/jpeg"` |
| AcceptProperties.EmptyExtensionMatchesImagesAndPdf | src/lib/image-upload-accept.ts:39-40 | `[""]` differs in shape from `[]` yet passes the comparison with it |
| AcceptProperties.EmptyExtensionPassesForNone | src/lib/image-upload-accept.ts:39-40 | `{"image/*": [""], "application/pdf": [".pdf"]}` resolves to `"images-and-pdf"` |

## Left out

- `src/components/form-components/image-upload-field.tsx` is not part of this model. It is a
  React component: drop-zone wiring through react-dropzone's hook, logging, markup and
  styling. Its only logic is removing a file by name with `filter`, which is user-interface glue.
- Membership of a string key is the seven keys of the table. JavaScript's `in` also walks the
  prototype chain, so the source accepts inherited names such as `"toString"` as preset keys.
  That quirk is not modelled.
- A Dafny `char` is a Unicode scalar value, while JavaScript sorts by UTF-16 code units. The
  two orders differ only between characters outside the Basic Multilingual Plane and those
  above U+E000. This never changes a result. A comparison passes only when a joined string
  equals a preset's joined form, which is ASCII. That forces every element to be ASCII, and on
  ASCII the two orders agree. An element that is not ASCII fails the comparison under either
  order.
- A Dafny map has no key order, and `Object.keys` returns keys in an order the engine defines.
  The model lists keys by `SortedKeys`. `SortedKeysIsSortOfAnyEnumeration` proves that sorting
  any enumeration gives the same list.
- The label strings are modelled only to the point of the shared key set. The display text is
  not modelled.
- Non-string values inside a mapping, `null` entries and array holes are ruled out by the
  types, so the model does not represent them.
