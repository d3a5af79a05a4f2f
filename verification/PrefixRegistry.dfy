/** The table in use: loaded from the first source that delivers every file, published whole, or left as it was. */
module PrefixRegistry {
  import opened Lists
  import opened PrefixLookup
  import opened PrefixSnapshot
  import opened PrefixUpdate
  import opened Text

  /** A source: what it answers for the snapshot and the manifest of each system. */
  datatype Source = Source(name: string, validateManifest: bool, snapshots: Files, manifests: Files)

  datatype LoadResult = LoadResult(prefixes: Registry, source: string, fallback: bool)

  /** The list one system gets from a source: fetched, described by its manifest if that is asked for, and parsed. */
  function LoadOne(net: NetIP, codec: Codec, source: Source, asn: string): Option<seq<string>> {
    if source.validateManifest && asn !in source.manifests then None
    else if asn !in source.snapshots then None
    else if source.validateManifest &&
            !ValidatePrefixManifest(net, codec, source.manifests[asn], source.snapshots[asn], SnapshotName(asn)) then None
    else Parse(net, source.snapshots[asn])
  }

  predicate Delivers(net: NetIP, codec: Codec, source: Source, asns: seq<string>) {
    forall asn :: asn in asns ==> LoadOne(net, codec, source, asn).Some?
  }

  function Delivered(net: NetIP, codec: Codec, source: Source, asns: seq<string>): (r: Registry)
    requires Delivers(net, codec, source, asns)
    ensures r.Keys == set asn | asn in asns
  {
    map asn | asn in asns :: LoadOne(net, codec, source, asn).value
  }

  /** One fetch for each system, their results taken in any order of arrival; the first failure ends it. */
  method FetchASNPrefixSource(net: NetIP, codec: Codec, source: Source, asns: seq<string>) returns (r: Option<Registry>)
    ensures r == if Delivers(net, codec, source, asns) then Some(Delivered(net, codec, source, asns)) else None
  {
    hide LoadOne;
    var waiting := set asn | asn in asns;
    var result: Registry := map[];
    while waiting != {}
      invariant waiting <= set asn | asn in asns
      invariant result.Keys == (set asn | asn in asns) - waiting
      invariant forall asn :: asn in result ==> LoadOne(net, codec, source, asn) == Some(result[asn])
      decreases |waiting|
    {
      var asn :| asn in waiting;
      waiting := waiting - {asn};
      var loaded := LoadOne(net, codec, source, asn);
      if loaded.None? {
        return None;
      }
      result := result[asn := loaded.value];
    }
    assert result == Delivered(net, codec, source, asns);
    return Some(result);
  }

  /** The files compiled in, with their manifests. */
  datatype Embedded = Embedded(files: Files, manifests: Files)

  predicate EmbeddedValid(net: NetIP, codec: Codec, embedded: Embedded, asns: seq<string>) {
    forall asn :: asn in asns ==>
      asn in embedded.files && asn in embedded.manifests &&
      ValidatePrefixManifest(net, codec, embedded.manifests[asn], embedded.files[asn], SnapshotName(asn))
  }

  /** The table a load settles on: the first delivering source from index on, else the compiled-in files. */
  function Loaded(net: NetIP, codec: Codec, sources: seq<Source>, index: nat, embedded: Embedded, asns: seq<string>):
    Option<LoadResult>
    requires index <= |sources|
    decreases |sources| - index
  {
    if index < |sources| then
      if Delivers(net, codec, sources[index], asns) then
        Some(LoadResult(Delivered(net, codec, sources[index], asns), sources[index].name, index > 0))
      else Loaded(net, codec, sources, index + 1, embedded, asns)
    else if embedded.files == map[] then None
    else if EmbeddedValid(net, codec, embedded, asns) then Some(LoadResult(RawTable(embedded.files), "embedded", true))
    else None
  }

  method LoadASNPrefixRegistry(net: NetIP, codec: Codec, sources: seq<Source>, embedded: Embedded, asns: seq<string>)
    returns (r: Option<LoadResult>)
    ensures r == Loaded(net, codec, sources, 0, embedded, asns)
  {
    hide Delivers, Delivered, RawTable, EmbeddedValid;
    for index := 0 to |sources|
      invariant Loaded(net, codec, sources, 0, embedded, asns) == Loaded(net, codec, sources, index, embedded, asns)
    {
      var prefixes := FetchASNPrefixSource(net, codec, sources[index], asns);
      if prefixes.None? {
        continue;
      }
      return Some(LoadResult(prefixes.value, sources[index].name, index > 0));
    }
    if embedded.files != map[] {
      if !EmbeddedValid(net, codec, embedded, asns) {
        return None;
      }
      return Some(LoadResult(RawTable(embedded.files), "embedded", true));
    }
    return None;
  }

  /** The table lookups read. */
  class Active {
    var prefixes: Registry

    constructor (embedded: Embedded)
      ensures prefixes == RawTable(embedded.files)
    {
      prefixes := RawTable(embedded.files);
    }

    /** Publish what was loaded, all at once; on any error keep the table in use. */
    method Refresh(net: NetIP, codec: Codec, sources: seq<Source>, embedded: Embedded, asns: seq<string>)
      returns (r: Option<LoadResult>)
      modifies this
      ensures r == Loaded(net, codec, sources, 0, embedded, asns)
      ensures prefixes == if r.Some? then r.value.prefixes else old(prefixes)
    {
      hide Loaded, RawTable;
      r := LoadASNPrefixRegistry(net, codec, sources, embedded, asns);
      if r.Some? {
        prefixes := r.value.prefixes;
      }
    }
  }

  // ----- which source is chosen -----

  /** The source has a readable snapshot of the system and, where manifests are asked for, one that attests it. */
  ghost predicate SoundFor(net: NetIP, codec: Codec, source: Source, asn: string) {
    && asn in source.snapshots && Readable(net, source.snapshots[asn])
    && (source.validateManifest ==> asn in source.manifests)
    && (source.validateManifest ==>
          Attests(net, codec, source.manifests[asn], source.snapshots[asn], SnapshotName(asn)))
  }

  ghost predicate Sound(net: NetIP, codec: Codec, source: Source, asns: seq<string>) {
    forall asn :: asn in asns ==> SoundFor(net, codec, source, asn)
  }

  /** These are the distinct lines of the source's snapshot, in lower case and in order. */
  ghost predicate LinesOf(r: seq<string>, source: Source, asn: string) {
    asn in source.snapshots && StrictlySorted(r) && (set v | v in r) == DistinctLines(source.snapshots[asn])
  }

  ghost predicate TableOf(r: Registry, source: Source, asns: seq<string>) {
    r.Keys == (set asn | asn in asns) && forall asn :: asn in asns ==> LinesOf(r[asn], source, asn)
  }

  lemma LoadOneExactly(net: NetIP, codec: Codec, source: Source, asn: string)
    ensures var r := LoadOne(net, codec, source, asn);
            (r.Some? <==> SoundFor(net, codec, source, asn)) && (r.Some? ==> LinesOf(r.value, source, asn))
  {
    hide Parse, Readable, ValidatePrefixManifest, Attests, SnapshotName, DistinctLines, StrictlySorted;
    if asn in source.snapshots {
      ParseExactly(net, source.snapshots[asn]);
      if Parse(net, source.snapshots[asn]).Some? {
        ParsedLines(net, source.snapshots[asn]);
      }
      if asn in source.manifests {
        ValidExactly(net, codec, source.manifests[asn], source.snapshots[asn], SnapshotName(asn));
      }
    }
  }

  /** A source delivers exactly when it is sound, and then the lines of its snapshots. */
  lemma DeliversExactly(net: NetIP, codec: Codec, source: Source, asns: seq<string>)
    ensures Delivers(net, codec, source, asns) <==> Sound(net, codec, source, asns)
    ensures Delivers(net, codec, source, asns) ==> TableOf(Delivered(net, codec, source, asns), source, asns)
  {
    hide LoadOne, SoundFor, LinesOf;
    forall asn
      ensures LoadOne(net, codec, source, asn).Some? <==> SoundFor(net, codec, source, asn)
      ensures LoadOne(net, codec, source, asn).Some? ==> LinesOf(LoadOne(net, codec, source, asn).value, source, asn)
    {
      LoadOneExactly(net, codec, source, asn);
    }
  }

  /** A source that checks manifests delivers nothing when one of them names another file, gives no timestamp, or
      differs from its snapshot in digest or count. */
  lemma MismatchRefused(net: NetIP, codec: Codec, source: Source, asns: seq<string>, asn: string, m: Manifest)
    requires source.validateManifest && asn in asns && asn in source.snapshots && asn in source.manifests
    requires codec.decode(source.manifests[asn]) == Some(m)
    requires || m.file != ToLower(asn) + ".txt" || !codec.validTime(m.generatedAt)
             || !EqualFold(m.sha256, codec.digest(source.snapshots[asn]))
             || m.count != |DistinctLines(source.snapshots[asn])|
    ensures !Delivers(net, codec, source, asns)
  {
    DeliversExactly(net, codec, source, asns);
    hide Delivers, DistinctLines, EqualFold, Readable;
  }

  /** Every compiled-in file has a manifest that attests it. */
  ghost predicate EmbeddedSound(net: NetIP, codec: Codec, embedded: Embedded, asns: seq<string>) {
    forall asn :: asn in asns ==>
      && asn in embedded.files && asn in embedded.manifests
      && Attests(net, codec, embedded.manifests[asn], embedded.files[asn], SnapshotName(asn))
  }

  lemma EmbeddedExactly(net: NetIP, codec: Codec, embedded: Embedded, asns: seq<string>)
    ensures EmbeddedValid(net, codec, embedded, asns) <==> EmbeddedSound(net, codec, embedded, asns)
  {
    hide ValidatePrefixManifest, SnapshotName, Attests;
    forall asn | asn in embedded.files && asn in embedded.manifests
      ensures ValidatePrefixManifest(net, codec, embedded.manifests[asn], embedded.files[asn], SnapshotName(asn)) <==>
              Attests(net, codec, embedded.manifests[asn], embedded.files[asn], SnapshotName(asn))
    {
      ValidExactly(net, codec, embedded.manifests[asn], embedded.files[asn], SnapshotName(asn));
    }
  }

  /** Source k is the first sound one from here on. */
  ghost predicate FirstSound(net: NetIP, codec: Codec, sources: seq<Source>, from: nat, asns: seq<string>, k: nat) {
    && from <= k < |sources| && Sound(net, codec, sources[k], asns)
    && forall j :: from <= j < k ==> !Sound(net, codec, sources[j], asns)
  }

  ghost predicate NoneSound(net: NetIP, codec: Codec, sources: seq<Source>, from: nat, asns: seq<string>) {
    forall k :: from <= k < |sources| ==> !Sound(net, codec, sources[k], asns)
  }

  ghost predicate LoadedFrom(r: Option<LoadResult>, source: Source, k: nat, asns: seq<string>) {
    r.Some? && TableOf(r.value.prefixes, source, asns) && r.value.source == source.name && (r.value.fallback <==> k > 0)
  }

  /** The first sound source is the one loaded, whatever the unsound ones before it and the sources after it hold;
      with no sound source the compiled-in files are, if their manifests attest them. */
  lemma {:induction false} LoadedExactly(net: NetIP, codec: Codec, sources: seq<Source>, from: nat, embedded: Embedded,
                                         asns: seq<string>)
    requires from <= |sources|
    ensures var r := Loaded(net, codec, sources, from, embedded, asns);
            && (forall k: nat :: FirstSound(net, codec, sources, from, asns, k) ==> LoadedFrom(r, sources[k], k, asns))
            && (NoneSound(net, codec, sources, from, asns) ==>
                  r == if embedded.files != map[] && EmbeddedSound(net, codec, embedded, asns)
                       then Some(LoadResult(RawTable(embedded.files), "embedded", true)) else None)
    decreases |sources| - from
  {
    hide Delivers, Delivered, Sound, TableOf, EmbeddedValid, EmbeddedSound, RawTable;
    if from < |sources| {
      DeliversExactly(net, codec, sources[from], asns);
      if !Delivers(net, codec, sources[from], asns) {
        LoadedExactly(net, codec, sources, from + 1, embedded, asns);
      }
    } else {
      EmbeddedExactly(net, codec, embedded, asns);
    }
  }

  /** A list as the reader leaves it. */
  ghost predicate Canonical(net: NetIP, lines: seq<string>) {
    lines != [] && StrictlySorted(lines) && forall v :: v in lines ==> CanonicalLine(net, v)
  }

  /** A loaded table is the compiled-in one, or holds for every system a strictly sorted list of canonical lines. */
  lemma {:induction false} LoadedWhole(net: NetIP, codec: Codec, sources: seq<Source>, index: nat, embedded: Embedded,
                                       asns: seq<string>)
    requires index <= |sources| && CaseBlind(net) && Loaded(net, codec, sources, index, embedded, asns).Some?
    ensures var r := Loaded(net, codec, sources, index, embedded, asns).value;
            || (r.source == "embedded" && r.fallback && r.prefixes == RawTable(embedded.files))
            || (&& r.prefixes.Keys == (set asn | asn in asns)
                && (forall asn :: asn in asns ==> Canonical(net, r.prefixes[asn]))
                && (exists i :: index <= i < |sources| && r.source == sources[i].name && (r.fallback <==> i > 0)))
    decreases |sources| - index
  {
    hide StrictlySorted, CanonicalLine, CaseBlind, Parse, ValidatePrefixManifest, RawTable, EmbeddedValid;
    if index < |sources| {
      if Delivers(net, codec, sources[index], asns) {
        forall asn | asn in asns
          ensures Canonical(net, Delivered(net, codec, sources[index], asns)[asn])
        {
          ParseCanonical(net, sources[index].snapshots[asn]);
        }
      } else {
        LoadedWhole(net, codec, sources, index + 1, embedded, asns);
      }
    }
  }

  lemma DeliveredIsParsed(net: NetIP, codec: Codec, source: Source, files: Files, asns: seq<string>)
    requires files.Keys == (set asn | asn in asns) && Delivers(net, codec, source, asns) && AllParse(net, files)
    requires forall asn :: asn in asns && asn in source.snapshots ==> source.snapshots[asn] == files[asn]
    ensures Delivered(net, codec, source, asns) == ParsedTable(net, files)
  {
    hide Parse, ValidatePrefixManifest, FragmentsLower;
    var d, p := Delivered(net, codec, source, asns), ParsedTable(net, files);
    assert d.Keys == p.Keys;
    forall asn | asn in d ensures d[asn] == p[asn] {
      assert LoadOne(net, codec, source, asn).Some?;
    }
  }

  /** Publishing a source that delivers the compiled-in files changes no answer. */
  lemma SameFilesSameAnswers(q: Query, codec: Codec, source: Source, files: Files, asns: seq<string>, asn: string)
    requires CaseBlind(q.net) && files.Keys == (set a | a in asns)
    requires AllParse(q.net, files) && Delivers(q.net, codec, source, asns)
    requires forall a :: a in asns && a in source.snapshots ==> source.snapshots[a] == files[a]
    ensures Answers(q, RawTable(files), asn) <==> Answers(q, Delivered(q.net, codec, source, asns), asn)
  {
    hide Answers, RawTable, AllParse, CaseBlind, Delivers;
    DeliveredIsParsed(q.net, codec, source, files, asns);
    RawAndParsedAgree(q, files, asn);
  }
}
