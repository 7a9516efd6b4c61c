/** The accept presets of the image upload field and the resolver that maps a caller's
    accept value back to a preset key. */
module AcceptPresets {
  import opened Sorting
  import opened ArrayJoin

  /** react-dropzone's `Accept`: MIME type pattern to the file extensions allowed for it
      (an empty list allows any extension). */
  type MimeMap = map<string, seq<string>>

  /** What a caller may pass as `accept`: nothing, a preset key, or an explicit mapping. */
  datatype Accept = Absent | Key(key: string) | Mapping(types: MimeMap)

  datatype Option<T> = None | Some(value: T)

  /** The fallback preset. */
  const DefaultKey: string := "image/*"

  /** The keys of a table, in table order: every entry's key is listed, and nothing else is. */
  function KeysOf<V>(t: seq<(string, V)>): (ks: seq<string>)
    ensures forall i :: 0 <= i < |t| ==> t[i].0 in ks
    ensures forall k :: k in ks ==> exists i :: 0 <= i < |t| && t[i].0 == k
  {
    var ks := seq(|t|, i requires 0 <= i < |t| => t[i].0);
    assert forall j :: 0 <= j < |ks| ==> ks[j] == t[j].0;
    ks
  }

  predicate DistinctKeys<V>(t: seq<(string, V)>)
  {
    forall i, j :: 0 <= i < j < |t| ==> t[i].0 != t[j].0
  }

  /** A table of presets: key and mapping, in declaration order. */
  type PresetTable = seq<(string, MimeMap)>

  /** The preset table in declaration order. Its keys are distinct, the default is one of
      them, and every preset names at least one MIME type. */
  function Presets(): (t: PresetTable)
    ensures |t| == 7
    ensures DistinctKeys(t)
    ensures t[0].0 == DefaultKey
    ensures forall i :: 0 <= i < |t| ==> |t[i].1| > 0
  {
    [ ("image/*", map["image/*" := []]),
      ("image/jpeg", map["image/jpeg" := [".jpeg", ".jpg"]]),
      ("image/png", map["image/png" := [".png"]]),
      ("image/webp", map["image/webp" := [".webp"]]),
      ("image/gif", map["image/gif" := [".gif"]]),
      ("application/pdf", map["application/pdf" := [".pdf"]]),
      ("images-and-pdf", map["image/*" := [], "application/pdf" := [".pdf"]]) ]
  }

  /** The display label of each preset, keyed exactly like the preset table. */
  function PresetLabels(): (t: seq<(string, string)>)
    ensures KeysOf(t) == KeysOf(Presets())
  {
    [ ("image/*", "All images"),
      ("image/jpeg", "JPEG only"),
      ("image/png", "PNG only"),
      ("image/webp", "WebP only"),
      ("image/gif", "GIF only"),
      ("application/pdf", "PDF only"),
      ("images-and-pdf", "Images and PDF") ]
  }

  function PresetKeys(): seq<string>
  {
    KeysOf(Presets())
  }

  /** `accept[k] ?? []`: the extensions listed for `k`, none when `k` is not a key. */
  function Lookup(m: MimeMap, k: string): seq<string>
  {
    if k in m then m[k] else []
  }

  /** `Object.keys(m).sort().join(",")`. */
  function KeysForm(m: MimeMap): string
  {
    Join(SortedKeys(m.Keys))
  }

  /** `Array.from(exts).sort().join(",")`. */
  function ExtensionsForm(exts: seq<string>): string
  {
    Join(Sort(exts))
  }

  /** The comparison the resolver applies to each preset: the joined sorted key lists agree,
      and for every key of the preset the joined sorted extension lists agree. */
  predicate Matches(accept: MimeMap, preset: MimeMap)
  {
    && KeysForm(accept) == KeysForm(preset)
    && forall k :: k in preset ==> ExtensionsForm(Lookup(accept, k)) == ExtensionsForm(preset[k])
  }

  /** `Array.prototype.find` over the table's entries: the position of the first entry whose
      value satisfies `p`, if any. */
  function FindFirst<V>(t: seq<(string, V)>, p: V -> bool): Option<nat>
  {
    if |t| == 0 then None
    else if p(t[0].1) then Some(0)
    else
      match FindFirst(t[1..], p)
      case Some(i) => Some(i + 1)
      case None => None
  }

  /** The search finds an entry that satisfies `p` with none before it, and finds nothing
      exactly when no entry satisfies `p`. */
  lemma {:induction false} FindFirstSpec<V>(t: seq<(string, V)>, p: V -> bool)
    ensures FindFirst(t, p).Some? ==> FindFirst(t, p).value < |t| && p(t[FindFirst(t, p).value].1)
    ensures FindFirst(t, p).Some? ==> forall j :: 0 <= j < FindFirst(t, p).value ==> !p(t[j].1)
    ensures FindFirst(t, p).None? <==> forall i :: 0 <= i < |t| ==> !p(t[i].1)
  {
    if |t| > 0 && !p(t[0].1) {
      FindFirstSpec(t[1..], p);
      forall j | 1 <= j < |t|
        ensures t[j] == t[1..][j - 1]
      {
      }
    }
  }

  /** The resolver over a table `t`: an absent value gives the default, a string is kept when
      it is a key of `t`, and a non-empty mapping gives the key of the first entry of `t` it
      matches; everything else falls back to the default. */
  function Resolve(t: PresetTable, accept: Accept): (r: string)
    ensures r == DefaultKey || r in KeysOf(t)
  {
    match accept
    case Absent => DefaultKey
    case Key(s) => if s in KeysOf(t) then s else DefaultKey
    case Mapping(m) =>
      if |m| == 0 then DefaultKey
      else
        var p := preset => Matches(m, preset);
        FindFirstSpec(t, p);
        match FindFirst(t, p)
        case Some(i) => t[i].0
        case None => DefaultKey
  }

  /** A mapping resolves to something other than the default only through an entry it matches,
      and a non-empty mapping that matches some entry resolves to a matching entry. */
  lemma ResolveFindsMatch(t: PresetTable, m: MimeMap)
    ensures Resolve(t, Mapping(m)) != DefaultKey ==>
      exists i :: 0 <= i < |t| && t[i].0 == Resolve(t, Mapping(m)) && Matches(m, t[i].1)
    ensures |m| > 0 && (exists i :: 0 <= i < |t| && Matches(m, t[i].1)) ==>
      exists i :: 0 <= i < |t| && t[i].0 == Resolve(t, Mapping(m)) && Matches(m, t[i].1)
  {
    var p := preset => Matches(m, preset);
    FindFirstSpec(t, p);
  }

  /** `getAcceptPresetKey`: total, and always one of the preset keys. */
  function GetAcceptPresetKey(accept: Accept): (r: string)
    ensures r in PresetKeys()
  {
    Resolve(Presets(), accept)
  }
}
