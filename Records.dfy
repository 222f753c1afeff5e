/**
  The values the mod-list exporter works on: what the host reports about a
  loaded mod, and the record written to the JSON file for it.
 */
module Records {
  import opened JavaStrings

  /** What the host's mod registry exposes about one loaded mod. `version` is
      the string the host's version translator produced for the mod's
      artifact version; the model treats it as opaque. */
  datatype HostMod = HostMod(modId: string, displayName: string, version: string, description: string)

  /** One entry of the exported list (`JsonModList.ModInfo`). */
  datatype ModInfo = ModInfo(id: string, name: string, version: string, summary: string)

  /** The exported document: a single field holding the list of mods. */
  datatype JsonModList = JsonModList(mods: seq<ModInfo>)

  /** The `ModInfo(IModInfo)` constructor: id, display name and version are
      copied; the summary is the description with both ends trimmed. */
  function ToModInfo(m: HostMod): (r: ModInfo)
    ensures r.id == m.modId && r.name == m.displayName && r.version == m.version
    ensures IsTrimmed(r.summary)
    ensures exists lead :: PaddedAt(m.description, lead, r.summary)
  {
    ModInfo(m.modId, m.displayName, m.version, Trim(m.description))
  }

  /** Trimming the summary again leaves it unchanged. */
  lemma SummaryIsTrimmed(m: HostMod)
    ensures Trim(ToModInfo(m).summary) == ToModInfo(m).summary
  {
    TrimIdempotent(m.description);
  }

  /** `Stream.map(ModInfo::new)`: the records of a list of mods, in order. */
  function ToModInfos(ms: seq<HostMod>): (r: seq<ModInfo>)
    ensures |r| == |ms|
    ensures forall i :: 0 <= i < |ms| ==> r[i] == ToModInfo(ms[i])
  {
    seq(|ms|, i requires 0 <= i < |ms| => ToModInfo(ms[i]))
  }
}
