/** The snapshot writer: fetched prefixes, the drop guard, manifests, and the reader that must accept them. */
module PrefixUpdate {
  import opened Lists
  import opened Sorting
  import opened Text
  import opened PrefixLookup
  import opened PrefixSnapshot

  const SCHEMA := "backtrace.asn-prefixes/v1"
  const KNOWN_ASNS := ["AS10099", "AS23764", "AS4134", "AS4809", "AS4837", "AS58453", "AS58807", "AS9808", "AS9929"]

  datatype Manifest = Manifest(schema: string, file: string, count: int, sha256: string, generatedAt: string)

  /** Strict decoding, encoding, the hexadecimal digest, and which texts are timestamps. */
  datatype Codec = Codec(decode: string -> Option<Manifest>, encode: Manifest -> string,
                         digest: string -> string, validTime: string -> bool)

  /** Decoding undoes encoding, with the newline the writer appends. */
  ghost predicate Faithful(codec: Codec) {
    forall m :: codec.decode(codec.encode(m) + "\n") == Some(m)
  }

  // ----- the reader's check -----

  predicate ValidatePrefixManifest(net: NetIP, codec: Codec, text: string, snapshot: string, file: string) {
    var decoded := codec.decode(text);
    && decoded.Some?
    && var m := decoded.value;
       && m.schema == SCHEMA && m.file == file && m.count >= 1
       && codec.validTime(m.generatedAt)
       && EqualFold(m.sha256, codec.digest(snapshot))
       && var values := Parse(net, snapshot);
          values.Some? && |values.value| == m.count
  }

  /** What the writer makes sure of: it counts lines, not distinct values. */
  predicate Describes(codec: Codec, text: string, snapshot: string, file: string) {
    var decoded := codec.decode(text);
    && decoded.Some?
    && var m := decoded.value;
       && m.schema == SCHEMA && m.file == file && m.count == |Values(snapshot)|
       && EqualFold(m.sha256, codec.digest(snapshot))
       && codec.validTime(m.generatedAt)
  }

  /** Every line is good and no two agree up to case. */
  ghost predicate Clean(net: NetIP, snapshot: string) {
    Parse(net, snapshot).Some? && Distinct(Map(Values(snapshot), ToLower))
  }

  lemma ParsedCount(net: NetIP, snapshot: string)
    requires Parse(net, snapshot).Some?
    ensures 1 <= |Parse(net, snapshot).value| <= |Values(snapshot)|
    ensures |Parse(net, snapshot).value| == |Values(snapshot)| <==> Clean(net, snapshot)
  {
    var low := Map(Values(snapshot), ToLower);
    hide Values, Sort, ToLower, LineOk;
    DedupeKeeps(low);
    FirstIsMember(low);
    hide Dedupe, Distinct;
    SortStrict(Dedupe(low));
  }

  /** The reader accepts what the writer describes exactly when the snapshot is clean. */
  lemma AcceptedExactly(net: NetIP, codec: Codec, text: string, snapshot: string, file: string)
    requires Describes(codec, text, snapshot, file)
    ensures ValidatePrefixManifest(net, codec, text, snapshot, file) <==> Clean(net, snapshot)
  {
    hide Parse, Values, EqualFold;
    if Parse(net, snapshot).Some? {
      ParsedCount(net, snapshot);
    }
  }

  /** The lines of a snapshot up to case. */
  ghost function DistinctLines(snapshot: string): set<string> {
    set v | v in Values(snapshot) :: ToLower(v)
  }

  /** The manifest tells the truth about the snapshot, which is a readable one. */
  ghost predicate Matches(net: NetIP, codec: Codec, m: Manifest, snapshot: string, file: string) {
    && m.schema == "backtrace.asn-prefixes/v1"
    && m.file == file
    && codec.validTime(m.generatedAt)
    && EqualFold(m.sha256, codec.digest(snapshot))
    && Readable(net, snapshot)
    && m.count == |DistinctLines(snapshot)|
  }

  /** What the reader makes of a snapshot: its distinct lines in lower case, in order. */
  lemma ParsedLines(net: NetIP, snapshot: string)
    requires Parse(net, snapshot).Some?
    ensures var r := Parse(net, snapshot).value;
            StrictlySorted(r) && (set v | v in r) == DistinctLines(snapshot) && |r| == |DistinctLines(snapshot)| >= 1
  {
    var values := Values(snapshot);
    var low := Map(values, ToLower);
    LoweredLines(values, low);
    var r := Canon(values);
    CanonLines(values);
    FirstIsMember(values);
    hide Values, ToLower, LineOk, Canon, StrictlySorted, Map;
    assert (set x | x in r) == DistinctLines(snapshot);
    assert ToLower(values[0]) in r;
  }

  lemma CanonLines(values: seq<string>)
    ensures var r := Canon(values);
            StrictlySorted(r) && (forall x :: x in r <==> x in Map(values, ToLower)) && |r| == |set x | x in r|
  {
    var low := Map(values, ToLower);
    hide Sort, ToLower;
    DedupeKeeps(low);
    hide Dedupe;
    SortStrict(Dedupe(low));
    hide StrictlySorted;
    ImageIs(Dedupe(low));
    assert (set x | x in Dedupe(low)) == (set x | x in Canon(values));
  }

  lemma LoweredLines(values: seq<string>, low: seq<string>)
    requires low == Map(values, ToLower)
    ensures forall x :: x in low <==> exists v :: v in values && ToLower(v) == x
  {
    hide ToLower;
    forall x ensures x in low <==> exists v :: v in values && ToLower(v) == x {
      if x in low {
        var i := IndexOf(low, x);
        assert values[i] in values;
      }
      if v :| v in values && ToLower(v) == x {
        var i := IndexOf(values, v);
        assert low[i] == x;
      }
    }
  }

  /** The text is that of a manifest which tells the truth about the snapshot. */
  ghost predicate Attests(net: NetIP, codec: Codec, text: string, snapshot: string, file: string) {
    exists m :: codec.decode(text) == Some(m) && Matches(net, codec, m, snapshot, file)
  }

  lemma ValidExactly(net: NetIP, codec: Codec, text: string, snapshot: string, file: string)
    ensures ValidatePrefixManifest(net, codec, text, snapshot, file) <==> Attests(net, codec, text, snapshot, file)
  {
    ParseExactly(net, snapshot);
    hide Parse, EqualFold, Readable, DistinctLines;
    if Parse(net, snapshot).Some? {
      ParsedLines(net, snapshot);
    }
  }

  /** One manifest accepts two snapshots only if they have one digest, up to case, and equally many distinct lines,
      and only under one file name. */
  lemma OneManifest(net: NetIP, codec: Codec, text: string, one: string, other: string, file: string, name: string)
    requires ValidatePrefixManifest(net, codec, text, one, file)
    requires ValidatePrefixManifest(net, codec, text, other, name)
    ensures EqualFold(codec.digest(one), codec.digest(other)) && file == name
    ensures |DistinctLines(one)| == |DistinctLines(other)|
  {
    ValidExactly(net, codec, text, one, file);
    ValidExactly(net, codec, text, other, name);
    hide ValidatePrefixManifest, Readable, DistinctLines;
  }

  // ----- fetched prefixes -----

  predicate Usable(net: NetIP, record: string) {
    var prefix := net.prefix(TrimSpace(record));
    prefix.Some? && prefix.value.addr.v6 && 16 <= prefix.value.bits <= 128
  }

  /** The usable records, printed in canonical form. */
  function Shown(net: NetIP, show: Network -> string, records: seq<string>): seq<string> {
    if records == [] then []
    else
      var front, last := Shown(net, show, records[..|records|-1]), records[|records|-1];
      if Usable(net, last) then front + [show(net.prefix(TrimSpace(last)).value)] else front
  }

  function Extracted(net: NetIP, show: Network -> string, records: seq<string>): Option<seq<string>> {
    var shown := Shown(net, show, records);
    if shown == [] then None else Some(Sort(Dedupe(shown), Alphabetical()))
  }

  /** This is the printed form of a record that is an IPv6 network of 16 to 128 bits. */
  ghost predicate FromRecord(net: NetIP, show: Network -> string, records: seq<string>, x: string) {
    exists record, n :: record in records && net.prefix(TrimSpace(record)) == Some(n)
      && n.addr.v6 && 16 <= n.bits <= 128 && x == show(n)
  }

  lemma {:induction false} ShownExactly(net: NetIP, show: Network -> string, records: seq<string>)
    ensures forall x :: x in Shown(net, show, records) <==> FromRecord(net, show, records, x)
  {
    hide TrimSpace;
    if records != [] {
      var front, last := records[..|records|-1], records[|records|-1];
      ShownExactly(net, show, front);
      assert records == front + [last];
      assert last in records && forall r :: r in records <==> r in front || r == last;
      forall x ensures x in Shown(net, show, records) <==> FromRecord(net, show, records, x) {
        if FromRecord(net, show, records, x) && !FromRecord(net, show, front, x) {
          assert Usable(net, last) && x == show(net.prefix(TrimSpace(last)).value);
        }
      }
    }
  }

  /** What is extracted: the printed forms of those records, each once and in order; nothing when there are none. */
  lemma ExtractedExactly(net: NetIP, show: Network -> string, records: seq<string>)
    ensures var r := Extracted(net, show, records);
            && (r.None? <==> forall x :: !FromRecord(net, show, records, x))
            && (r.Some? ==> StrictlySorted(r.value) && forall x :: x in r.value <==> FromRecord(net, show, records, x))
  {
    var shown := Shown(net, show, records);
    ShownExactly(net, show, records);
    DedupeKeeps(shown);
    hide Shown, FromRecord, StrictlySorted, Sort, Dedupe;
    SortStrict(Dedupe(shown));
    FirstIsMember(shown);
  }

  method ExtractIPv6Prefixes(net: NetIP, show: Network -> string, records: seq<string>)
    returns (r: Option<seq<string>>)
    ensures r == Extracted(net, show, records)
  {
    hide Usable, TrimSpace, Sort, Dedupe;
    var seen: set<string> := {};
    for i := 0 to |records|
      invariant forall x :: x in seen <==> x in Shown(net, show, records[..i])
    {
      assert records[..i+1][..i] == records[..i];
      if Usable(net, records[i]) {
        assert net.prefix(TrimSpace(records[i])).Some? by { UsableParses(net, records[i]); }
        seen := seen + {show(net.prefix(TrimSpace(records[i])).value)};
      }
    }
    assert records[..|records|] == records;
    ghost var shown := Shown(net, show, records);
    hide Shown;
    var values: seq<string> := [];
    var keys := seen;
    while keys != {}
      invariant keys <= seen && Distinct(values)
      invariant forall x :: x in values <==> x in seen && x !in keys
      decreases |keys|
    {
      var value :| value in keys;
      keys := keys - {value};
      values := values + [value];
    }
    values := AnyOrderSorts(values, shown);
    FirstIsMember(shown);
    if |values| == 0 {
      return None;
    }
    return Some(values);
  }

  lemma UsableParses(net: NetIP, record: string)
    requires Usable(net, record)
    ensures net.prefix(TrimSpace(record)).Some?
  {
  }

  /** Sorting forgets the order in which a set was walked. */
  method AnyOrderSorts(values: seq<string>, ghost shown: seq<string>) returns (r: seq<string>)
    requires Distinct(values) && forall x :: x in values <==> x in shown
    ensures r == Sort(Dedupe(shown), Alphabetical())
    ensures r == [] <==> shown == []
  {
    DedupeKeeps(shown);
    var other := Dedupe(shown);
    r := Sort(values, Alphabetical());
    SortStrict(values);
    SortStrict(other);
    FirstIsMember(shown);
    FirstIsMember(r);
    StrictUnique(r, Sort(other, Alphabetical()));
  }

  lemma StrictUnique(a: seq<string>, b: seq<string>)
    requires StrictlySorted(a) && StrictlySorted(b) && forall x :: x in a <==> x in b
    ensures a == b
  {
    hide Sort;
    StrictIsSorted(a);
    StrictIsSorted(b);
    hide StrictlySorted;
    SameMembersSameBag(a, b);
    AlphabeticalOrder();
    AlphabeticalSeparates(a);
    SortSorts(a, Alphabetical());
    SortSorts(b, Alphabetical());
    OrderedUnique(a, b, Alphabetical());
  }

  /** The standard library prints an IPv6 network as a canonical line that parses. */
  ghost predicate Prints(net: NetIP, show: Network -> string) {
    forall s :: net.prefix(s).Some? && net.prefix(s).value.addr.v6 ==> CanonicalLine(net, show(net.prefix(s).value))
  }

  ghost predicate Fresh(net: NetIP, values: seq<string>) {
    values != [] && StrictlySorted(values) && forall v :: v in values ==> CanonicalLine(net, v)
  }

  lemma {:induction false} ShownCanonical(net: NetIP, show: Network -> string, records: seq<string>)
    requires Prints(net, show)
    ensures forall v :: v in Shown(net, show, records) ==> CanonicalLine(net, v)
  {
    hide CanonicalLine, TrimSpace;
    if records != [] {
      ShownCanonical(net, show, records[..|records|-1]);
    }
  }

  lemma ExtractedFresh(net: NetIP, show: Network -> string, records: seq<string>)
    requires Prints(net, show) && Extracted(net, show, records).Some?
    ensures Fresh(net, Extracted(net, show, records).value)
  {
    var shown := Shown(net, show, records);
    ShownCanonical(net, show, records);
    DedupeKeeps(shown);
    hide Shown, CanonicalLine, StrictlySorted, Sort, Dedupe;
    SortStrict(Dedupe(shown));
    FirstIsMember(shown);
  }

  // ----- files -----

  function Snapshot(values: seq<string>): string {
    Join(values, '\n') + "\n"
  }

  /** The new list would lose more than 35 lines in a hundred. */
  predicate Guarded(current: string, values: seq<string>) {
    |Values(current)| > 0 && |values| * 100 < |Values(current)| * 65
  }

  function SnapshotName(asn: string): string {
    ToLower(asn) + ".txt"
  }

  function ManifestName(file: string): string {
    file + ".manifest.json"
  }

  datatype Read = Data(text: string) | NotExist | ReadFailed
  datatype Write = Written | CountDropped | WriteFailed

  type Files = map<string, string>

  method CountNonemptyLines(data: string) returns (count: nat)
    ensures count == |Values(data)|
  {
    hide Split, TrimSpace, Filter;
    count := 0;
    var lines := Split(data, '\n');
    ghost var trimmed := Map(lines, TrimSpace);
    assert |Filter(trimmed[..0], NotBlank)| == 0;
    for i := 0 to |lines|
      invariant count == |Filter(trimmed[..i], NotBlank)|
    {
      FilterStep(trimmed, i, NotBlank);
      if TrimSpace(lines[i]) != "" {
        count := count + 1;
      }
    }
    assert trimmed[..|lines|] == trimmed;
  }

  method PrefixValuesFromFile(data: string) returns (values: seq<string>)
    ensures values == Values(data)
  {
    hide Split, TrimSpace, Filter;
    values := [];
    var lines := Split(data, '\n');
    ghost var trimmed := Map(lines, TrimSpace);
    assert |Filter(trimmed[..0], NotBlank)| == 0;
    for i := 0 to |lines|
      invariant values == Filter(trimmed[..i], NotBlank)
    {
      FilterStep(trimmed, i, NotBlank);
      var value := TrimSpace(lines[i]);
      if value != "" {
        values := values + [value];
      }
    }
    assert trimmed[..|lines|] == trimmed;
  }

  /** Some reading or replacing fails from one number on and before another. */
  ghost predicate AnyFails(fails: nat -> bool, from: nat, to: nat) {
    exists n: nat :: from <= n < to && fails(n)
  }

  lemma OneFails(fails: nat -> bool, n: nat)
    ensures AnyFails(fails, n, n + 1) <==> fails(n)
  {
    if fails(n) {
      assert n <= n < n + 1;
    }
  }

  lemma FailsSplit(fails: nat -> bool, from: nat, mid: nat, to: nat)
    requires from <= mid <= to
    ensures AnyFails(fails, from, to) <==> AnyFails(fails, from, mid) || AnyFails(fails, mid, to)
    ensures !AnyFails(fails, from, from)
  {
  }

  lemma GuardedFilled(current: string, values: seq<string>)
    requires Guarded(current, values)
    ensures Values(current) != []
  {
    hide Values;
  }

  /** The output directory. Any reading and replacing may fail: the n-th one does if `fails(n)`. A failed replacement
      changes nothing. */
  class Directory {
    var files: Files
    var calls: nat
    const fails: nat -> bool

    constructor (start: Files, fails: nat -> bool)
      ensures files == start && calls == 0 && this.fails == fails
    {
      files, calls, this.fails := start, 0, fails;
    }

    method ReadFile(path: string) returns (r: Read)
      modifies `calls
      ensures calls == old(calls) + 1
      ensures r == if fails(old(calls)) then ReadFailed else if path in files then Data(files[path]) else NotExist
    {
      r := if fails(calls) then ReadFailed else if path in files then Data(files[path]) else NotExist;
      calls := calls + 1;
    }

    method Replace(path: string, data: string) returns (ok: bool)
      modifies this
      ensures calls == old(calls) + 1 && ok == !fails(old(calls))
      ensures files == if ok then old(files)[path := data] else old(files)
    {
      ok := !fails(calls);
      calls := calls + 1;
      if ok {
        files := files[path := data];
      }
    }

    method WritePrefixFile(path: string, values: seq<string>) returns (r: Write)
      modifies this
      ensures calls >= old(calls) && (r.WriteFailed? <==> AnyFails(fails, old(calls), calls))
      ensures r.WriteFailed? ==> files == old(files)
      ensures r.CountDropped? ==> files == old(files) && path in files && Guarded(files[path], values)
      ensures r.Written? ==> files == old(files)[path := Snapshot(values)]
      ensures r.Written? && path in old(files) ==> !Guarded(old(files)[path], values)
    {
      hide Values, Join;
      var candidate := Join(values, '\n') + "\n";
      var current := ReadFile(path);
      if current.Data? {
        var currentCount := CountNonemptyLines(current.text);
        if currentCount > 0 && |values| * 100 < currentCount * 65 {
          return CountDropped;
        }
        if current.text == candidate {
          assert files == files[path := candidate];
          return Written;
        }
      }
      if current.ReadFailed? {
        return WriteFailed;
      }
      var ok := Replace(path, candidate);
      return if ok then Written else WriteFailed;
    }

    method WritePrefixManifest(codec: Codec, file: string, now: string) returns (ok: bool)
      requires Faithful(codec) && codec.validTime(now)
      modifies this
      ensures calls >= old(calls)
      ensures ok <==> !AnyFails(fails, old(calls), calls) && file in old(files) && Values(old(files)[file]) != []
      ensures !ok ==> files == old(files)
      ensures ok ==> file in old(files) && Values(old(files)[file]) != [] && ManifestName(file) in files
      ensures ok ==> files == old(files)[ManifestName(file) := files[ManifestName(file)]]
      ensures ok ==> Describes(codec, files[ManifestName(file)], old(files)[file], file)
      ensures Described(codec, old(files), file) ==> files == old(files)
    {
      hide Values, EqualFold;
      var snapshot := ReadFile(file);
      if !snapshot.Data? {
        return false;
      }
      var values := PrefixValuesFromFile(snapshot.text);
      if |values| == 0 {
        return false;
      }
      var sha256 := codec.digest(snapshot.text);
      var path := ManifestName(file);
      var current := ReadFile(path);
      if current.Data? {
        var existing := codec.decode(current.text);
        if existing.Some? && existing.value.schema == SCHEMA && existing.value.file == file
          && existing.value.count == |values| && EqualFold(existing.value.sha256, sha256)
        {
          if codec.validTime(existing.value.generatedAt) {
            assert files == files[path := files[path]];
            return true;
          }
        }
      } else if current.ReadFailed? {
        return false;
      }
      var manifest := Manifest(SCHEMA, file, |values|, sha256, now);
      FoldReflexive(sha256);
      ok := Replace(path, codec.encode(manifest) + "\n");
    }

    /** The snapshot and then the manifest of one system. */
    method WritePair(codec: Codec, file: string, values: seq<string>, now: string) returns (ok: bool)
      requires Faithful(codec) && codec.validTime(now)
      modifies this
      ensures calls >= old(calls)
      ensures Values(Snapshot(values)) != [] ==> (ok <==> !AnyFails(fails, old(calls), calls))
      ensures ok ==> Outcome(codec, old(files), files, file, values)
      ensures OldOrNew(old(files), files, file, values)
      ensures forall path :: path != file && path != ManifestName(file) ==> Same(old(files), files, path)
    {
      hide Describes, Values, Faithful, Guarded, Snapshot, AnyFails;
      ghost var start := calls;
      var written := WritePrefixFile(file, values);
      if written.WriteFailed? {
        return false;
      }
      if written.CountDropped? {
        GuardedFilled(files[file], values);
        ghost var before := calls;
        var current := ReadFile(file);
        OneFails(fails, before);
        FailsSplit(fails, start, before, calls);
        if !current.Data? {
          return false;
        }
        var kept := PrefixValuesFromFile(current.text);
      }
      assert ManifestName(file)[|file|] == '.';
      ghost var mid := calls;
      ok := WritePrefixManifest(codec, file, now);
      FailsSplit(fails, start, mid, calls);
    }

    /** The pairs of the listed systems, in order, until one fails. */
    method WriteAll(codec: Codec, plan: map<string, seq<string>>, now: string -> string, asns: seq<string>)
      returns (ok: bool)
      requires Faithful(codec) && (forall asn :: codec.validTime(now(asn))) && SeparateNames(asns)
      requires forall i :: 0 <= i < |asns| ==> asns[i] in plan
      modifies this
      ensures calls >= old(calls)
      ensures AllFilled(asns, plan) ==> (ok <==> !AnyFails(fails, old(calls), calls))
      ensures ok ==> Progress(codec, old(files), files, asns, plan, |asns|)
      ensures forall i :: 0 <= i < |asns| ==> OldOrNew(old(files), files, SnapshotName(asns[i]), plan[asns[i]])
      ensures forall path :: !Touches(asns, path) ==> Same(old(files), files, path)
    {
      hide Outcome, Touches, SeparateNames, Faithful, Progress, SnapshotName, ManifestName, OldOrNew, Same, AnyFails;
      hide Values, Snapshot;
      ghost var start := calls;
      FailsSplit(fails, start, start, start);
      ProgressStart(codec, files, asns, plan);
      NothingWritten(files, asns, plan);
      for i := 0 to |asns|
        invariant Progress(codec, old(files), files, asns, plan, i)
        invariant AllOldOrNew(old(files), files, asns, plan)
        invariant calls >= old(calls) && (AllFilled(asns, plan) ==> !AnyFails(fails, old(calls), calls))
      {
        ghost var before, mid := files, calls;
        ok := WritePair(codec, SnapshotName(asns[i]), plan[asns[i]], now(asns[i]));
        FailsSplit(fails, start, mid, calls);
        OldOrNewStep(old(files), before, files, asns, plan, i);
        ProgressFrame(codec, old(files), before, files, asns, plan, i);
        if !ok {
          return false;
        }
        ProgressStep(codec, old(files), before, files, asns, plan, i);
      }
      assert asns[..|asns|] == asns;
      ProgressTouches(codec, old(files), files, asns, plan);
      return true;
    }

    /** One run over the listed systems: nothing is written until everything has been fetched. */
    method UpdatePrefixes(net: NetIP, codec: Codec, show: Network -> string,
                          fetch: string -> Option<seq<string>>, now: string -> string, asns: seq<string>)
      returns (ok: bool)
      requires Faithful(codec) && (forall asn :: codec.validTime(now(asn))) && SeparateNames(asns)
      modifies this
      ensures !AllFetched(net, show, fetch, asns) ==> !ok && files == old(files)
      ensures AllFetched(net, show, fetch, asns) && Prints(net, show) ==> (ok <==> !AnyFails(fails, old(calls), calls))
      ensures ok ==> AllFetched(net, show, fetch, asns)
      ensures ok ==> forall i :: 0 <= i < |asns| ==>
        Outcome(codec, old(files), files, SnapshotName(asns[i]), Update(net, show, fetch, asns[i]).value)
      ensures forall i :: 0 <= i < |asns| ==>
        if AllFetched(net, show, fetch, asns)
        then OldOrNew(old(files), files, SnapshotName(asns[i]), Update(net, show, fetch, asns[i]).value)
        else Same(old(files), files, SnapshotName(asns[i]))
      ensures forall path :: !Touches(asns, path) ==> Same(old(files), files, path)
    {
      hide OldOrNew, Update, Outcome, Touches, SeparateNames, Faithful, SnapshotName;
      var plan := FetchAll(net, show, fetch, asns);
      if plan.None? {
        return false;
      }
      if Prints(net, show) {
        FreshFilled(net, show, fetch, asns, plan.value);
      }
      ok := WriteAll(codec, plan.value, now, asns);
    }
  }

  method FetchAll(net: NetIP, show: Network -> string, fetch: string -> Option<seq<string>>, asns: seq<string>)
    returns (plan: Option<map<string, seq<string>>>)
    ensures plan.Some? <==> AllFetched(net, show, fetch, asns)
    ensures plan.Some? ==> forall i :: 0 <= i < |asns| ==>
              asns[i] in plan.value && Update(net, show, fetch, asns[i]) == Some(plan.value[asns[i]])
  {
    hide Extracted;
    var valuesByASN: map<string, seq<string>> := map[];
    for i := 0 to |asns|
      invariant forall j :: 0 <= j < i ==>
        asns[j] in valuesByASN && Update(net, show, fetch, asns[j]) == Some(valuesByASN[asns[j]])
    {
      var records := fetch(asns[i]);
      if records.None? {
        assert Update(net, show, fetch, asns[i]).None?;
        return None;
      }
      var values := ExtractIPv6Prefixes(net, show, records.value);
      assert Update(net, show, fetch, asns[i]) == values;
      if values.None? {
        return None;
      }
      valuesByASN := valuesByASN[asns[i] := values.value];
    }
    return Some(valuesByASN);
  }

  lemma FoldReflexive(s: string)
    ensures EqualFold(s, s)
  {
  }

  // ----- what one run leaves behind -----

  function Update(net: NetIP, show: Network -> string, fetch: string -> Option<seq<string>>, asn: string):
    Option<seq<string>>
  {
    var records := fetch(asn);
    if records.None? then None else Extracted(net, show, records.value)
  }

  ghost predicate AllFetched(net: NetIP, show: Network -> string, fetch: string -> Option<seq<string>>,
                             asns: seq<string>)
  {
    forall i :: 0 <= i < |asns| ==> Update(net, show, fetch, asns[i]).Some?
  }

  /** The file and its manifest are there, and the manifest describes the file. */
  ghost predicate Described(codec: Codec, files: Files, file: string) {
    file in files && ManifestName(file) in files && Describes(codec, files[ManifestName(file)], files[file], file)
  }

  ghost predicate Same(before: Files, after: Files, path: string) {
    (path in before <==> path in after) && (path in before ==> before[path] == after[path])
  }

  /** Whatever happened, the file is as it was or holds the new values: it is never half written. */
  ghost predicate OldOrNew(before: Files, after: Files, file: string, values: seq<string>) {
    Same(before, after, file) || (file in after && after[file] == Snapshot(values))
  }

  ghost predicate AllOldOrNew(before: Files, after: Files, asns: seq<string>, plan: map<string, seq<string>>) {
    forall i :: 0 <= i < |asns| && asns[i] in plan ==> OldOrNew(before, after, SnapshotName(asns[i]), plan[asns[i]])
  }

  /** Every snapshot to be written has a line. */
  ghost predicate AllFilled(asns: seq<string>, plan: map<string, seq<string>>) {
    forall i :: 0 <= i < |asns| && asns[i] in plan ==> Values(Snapshot(plan[asns[i]])) != []
  }

  ghost predicate Touches(asns: seq<string>, path: string) {
    exists i :: 0 <= i < |asns| && (path == SnapshotName(asns[i]) || path == ManifestName(SnapshotName(asns[i])))
  }

  ghost predicate SeparateNames(asns: seq<string>) {
    forall i, j :: 0 <= i < j < |asns| ==> SnapshotName(asns[i]) != SnapshotName(asns[j])
  }

  /** The guard kept the old snapshot. */
  ghost predicate Kept(before: Files, file: string, values: seq<string>) {
    file in before && Guarded(before[file], values)
  }

  /** A described pair: the old snapshot if the guard kept it, the new one otherwise. */
  ghost predicate Outcome(codec: Codec, before: Files, after: Files, file: string, values: seq<string>) {
    && file in after && ManifestName(file) in after
    && after[file] == (if Kept(before, file, values) then before[file] else Snapshot(values))
    && Describes(codec, after[ManifestName(file)], after[file], file)
  }

  /** The first i systems have been written, and nothing else changed. */
  ghost predicate Progress(codec: Codec, before: Files, after: Files, asns: seq<string>,
                           plan: map<string, seq<string>>, i: nat)
  {
    && i <= |asns|
    && (forall j :: 0 <= j < i ==>
          asns[j] in plan && Outcome(codec, before, after, SnapshotName(asns[j]), plan[asns[j]]))
    && (forall path :: !Touches(asns[..i], path) ==> Same(before, after, path))
  }

  lemma OutcomeStands(codec: Codec, before: Files, mid: Files, after: Files, file: string, values: seq<string>)
    requires Outcome(codec, before, mid, file, values)
    requires Same(mid, after, file) && Same(mid, after, ManifestName(file))
    ensures Outcome(codec, before, after, file, values)
  {
    hide Describes, Guarded, Snapshot;
  }

  lemma OutcomeFrom(codec: Codec, before: Files, mid: Files, after: Files, file: string, values: seq<string>)
    requires Outcome(codec, mid, after, file, values) && Same(before, mid, file)
    ensures Outcome(codec, before, after, file, values)
  {
    hide Describes, Guarded, Snapshot;
  }

  lemma NothingWritten(files: Files, asns: seq<string>, plan: map<string, seq<string>>)
    ensures AllOldOrNew(files, files, asns, plan)
  {
    hide SnapshotName, Snapshot;
  }

  lemma OldOrNewThen(before: Files, mid: Files, after: Files, file: string, values: seq<string>)
    requires OldOrNew(before, mid, file, values)
    requires OldOrNew(mid, after, file, values)
    ensures OldOrNew(before, after, file, values)
  {
    hide Snapshot;
  }

  lemma OldOrNewStep(before: Files, mid: Files, after: Files, asns: seq<string>, plan: map<string, seq<string>>, i: nat)
    requires SeparateNames(asns) && i < |asns| && asns[i] in plan && AllOldOrNew(before, mid, asns, plan)
    requires OldOrNew(mid, after, SnapshotName(asns[i]), plan[asns[i]])
    requires forall path :: path != SnapshotName(asns[i]) && path != ManifestName(SnapshotName(asns[i])) ==>
               Same(mid, after, path)
    ensures AllOldOrNew(before, after, asns, plan)
  {
    hide SnapshotName, ManifestName, SeparateNames, Snapshot, Same;
    forall j | 0 <= j < |asns| && asns[j] in plan
      ensures OldOrNew(before, after, SnapshotName(asns[j]), plan[asns[j]])
    {
      if j < i {
        NamesApart(asns, j, i);
      } else if i < j {
        NamesApart(asns, i, j);
      }
      OldOrNewThen(before, mid, after, SnapshotName(asns[j]), plan[asns[j]]);
    }
  }

  lemma ProgressStart(codec: Codec, before: Files, asns: seq<string>, plan: map<string, seq<string>>)
    ensures Progress(codec, before, before, asns, plan, 0)
  {
  }

  /** Writing one pair touches only listed files. */
  lemma ProgressFrame(codec: Codec, before: Files, mid: Files, after: Files, asns: seq<string>,
                      plan: map<string, seq<string>>, i: nat)
    requires i < |asns| && Progress(codec, before, mid, asns, plan, i)
    requires forall path :: path != SnapshotName(asns[i]) && path != ManifestName(SnapshotName(asns[i])) ==>
               Same(mid, after, path)
    ensures forall path :: !Touches(asns[..i+1], path) ==> Same(before, after, path)
    ensures forall path :: !Touches(asns, path) ==> Same(before, after, path)
  {
    hide Outcome, SnapshotName, ManifestName, Touches;
    TouchesMore(asns, i);
    forall path | !Touches(asns[..i+1], path) ensures Same(before, after, path) {
      assert !Touches(asns[..i], path);
      assert Same(before, mid, path) && Same(mid, after, path);
    }
  }

  lemma ProgressTouches(codec: Codec, before: Files, after: Files, asns: seq<string>, plan: map<string, seq<string>>)
    requires Progress(codec, before, after, asns, plan, |asns|)
    ensures forall path :: !Touches(asns, path) ==> Same(before, after, path)
  {
    hide Touches, Outcome;
    assert asns[..|asns|] == asns;
  }

  lemma ProgressStep(codec: Codec, before: Files, mid: Files, after: Files, asns: seq<string>,
                     plan: map<string, seq<string>>, i: nat)
    requires SeparateNames(asns) && i < |asns| && asns[i] in plan
    requires Progress(codec, before, mid, asns, plan, i)
    requires Outcome(codec, mid, after, SnapshotName(asns[i]), plan[asns[i]])
    requires forall path :: path != SnapshotName(asns[i]) && path != ManifestName(SnapshotName(asns[i])) ==>
               Same(mid, after, path)
    ensures Progress(codec, before, after, asns, plan, i + 1)
  {
    hide Outcome, SnapshotName, ManifestName, SeparateNames, Touches;
    NotYetTouched(asns, i);
    ProgressFrame(codec, before, mid, after, asns, plan, i);
    OutcomeFrom(codec, before, mid, after, SnapshotName(asns[i]), plan[asns[i]]);
    forall j | 0 <= j < i ensures Outcome(codec, before, after, SnapshotName(asns[j]), plan[asns[j]]) {
      NamesApart(asns, j, i);
      OutcomeStands(codec, before, mid, after, SnapshotName(asns[j]), plan[asns[j]]);
    }
  }

  // ----- the writer and the reader agree, and where they do not -----

  /**
   * After a run the reader accepts every pair, except that a snapshot the guard kept is accepted exactly when
   * its lines are good and no two of them agree up to case. A replaced snapshot reads back as what was fetched
   * and has at least 65 lines for every 100 it had.
   */
  lemma PairAccepted(net: NetIP, codec: Codec, before: Files, after: Files, file: string, values: seq<string>)
    requires Outcome(codec, before, after, file, values) && Fresh(net, values)
    ensures ValidatePrefixManifest(net, codec, after[ManifestName(file)], after[file], file) <==>
            (Kept(before, file, values) ==> Clean(net, before[file]))
    ensures Kept(before, file, values) <==> file in before && 100 * |values| < 65 * |Values(before[file])|
    ensures !Kept(before, file, values) ==> Parse(net, after[file]) == Some(values)
    ensures !Kept(before, file, values) && file in before ==>
              100 * |Values(after[file])| >= 65 * |Values(before[file])|
  {
    hide Values, Describes, ValidatePrefixManifest, Parse, CanonicalLine, StrictlySorted, Join, ManifestName;
    AcceptedExactly(net, codec, after[ManifestName(file)], after[file], file);
    if !Kept(before, file, values) {
      ReadBack(net, values);
    }
  }

  /** Over a whole run, for every listed system. */
  lemma RunLeavesAcceptedPairs(net: NetIP, codec: Codec, show: Network -> string, fetch: string -> Option<seq<string>>,
                               before: Files, after: Files, asn: string)
    requires Prints(net, show) && Update(net, show, fetch, asn).Some?
    requires Outcome(codec, before, after, SnapshotName(asn), Update(net, show, fetch, asn).value)
    ensures var file, values := SnapshotName(asn), Update(net, show, fetch, asn).value;
            && (ValidatePrefixManifest(net, codec, after[ManifestName(file)], after[file], file) <==>
                  (Kept(before, file, values) ==> Clean(net, before[file])))
            && (Kept(before, file, values) <==> file in before && 100 * |values| < 65 * |Values(before[file])|)
            && (!Kept(before, file, values) ==> Parse(net, after[file]) == Some(values))
            && (!Kept(before, file, values) && file in before ==>
                  100 * |Values(after[file])| >= 65 * |Values(before[file])|)
  {
    hide Outcome, Fresh, Extracted, ValidatePrefixManifest, Clean, Kept, Parse, Values;
    ExtractedFresh(net, show, fetch(asn).value);
    PairAccepted(net, codec, before, after, SnapshotName(asn), Update(net, show, fetch, asn).value);
  }

  // ----- any number of runs -----

  /** Every listed snapshot that exists is clean. */
  ghost predicate AllClean(net: NetIP, files: Files, asns: seq<string>) {
    forall i :: 0 <= i < |asns| && SnapshotName(asns[i]) in files ==> Clean(net, files[SnapshotName(asns[i])])
  }

  /** The reader accepts every listed pair. */
  ghost predicate AllAccepted(net: NetIP, codec: Codec, files: Files, asns: seq<string>) {
    forall i :: 0 <= i < |asns| ==>
      var file := SnapshotName(asns[i]);
      && file in files && ManifestName(file) in files
      && ValidatePrefixManifest(net, codec, files[ManifestName(file)], files[file], file)
  }

  lemma FreshClean(net: NetIP, values: seq<string>)
    requires Fresh(net, values)
    ensures Clean(net, Snapshot(values))
  {
    hide Parse, Values, Join, CanonicalLine, StrictlySorted;
    ReadBack(net, values);
  }

  lemma FreshFilled(net: NetIP, show: Network -> string, fetch: string -> Option<seq<string>>, asns: seq<string>,
                    plan: map<string, seq<string>>)
    requires Prints(net, show)
    requires forall i :: 0 <= i < |asns| ==> asns[i] in plan && Update(net, show, fetch, asns[i]) == Some(plan[asns[i]])
    ensures AllFilled(asns, plan)
  {
    hide Update, Fresh, Snapshot, Values, Prints, Clean;
    forall i | 0 <= i < |asns| ensures Values(Snapshot(plan[asns[i]])) != [] {
      UpdateFresh(net, show, fetch, asns[i]);
      FreshClean(net, plan[asns[i]]);
      CleanFilled(net, Snapshot(plan[asns[i]]));
    }
  }

  lemma CleanFilled(net: NetIP, snapshot: string)
    requires Clean(net, snapshot)
    ensures Values(snapshot) != []
  {
  }

  /** What one run, successful or not, may make of the directory. */
  ghost predicate Ran(net: NetIP, codec: Codec, show: Network -> string, fetch: string -> Option<seq<string>>,
                      asns: seq<string>, ok: bool, before: Files, after: Files)
  {
    && (forall i :: 0 <= i < |asns| ==>
          if AllFetched(net, show, fetch, asns)
          then OldOrNew(before, after, SnapshotName(asns[i]), Update(net, show, fetch, asns[i]).value)
          else Same(before, after, SnapshotName(asns[i])))
    && (ok ==> AllFetched(net, show, fetch, asns) && forall i :: 0 <= i < |asns| ==>
          Outcome(codec, before, after, SnapshotName(asns[i]), Update(net, show, fetch, asns[i]).value))
  }

  /** Clean snapshots stay clean through every run, also one that fails half-way; and after a successful one the
      reader accepts every pair. */
  lemma RunKeepsClean(net: NetIP, codec: Codec, show: Network -> string, fetch: string -> Option<seq<string>>,
                      asns: seq<string>, ok: bool, before: Files, after: Files)
    requires Prints(net, show) && AllClean(net, before, asns) && Ran(net, codec, show, fetch, asns, ok, before, after)
    ensures AllClean(net, after, asns)
    ensures ok ==> AllAccepted(net, codec, after, asns)
  {
    hide Clean, Snapshot, SnapshotName, ManifestName, Update, Outcome, ValidatePrefixManifest, Fresh, Prints;
    forall i | 0 <= i < |asns| && SnapshotName(asns[i]) in after ensures Clean(net, after[SnapshotName(asns[i])]) {
      if AllFetched(net, show, fetch, asns) {
        UpdateFresh(net, show, fetch, asns[i]);
        FreshClean(net, Update(net, show, fetch, asns[i]).value);
      }
    }
    if ok {
      forall i | 0 <= i < |asns|
        ensures var file := SnapshotName(asns[i]);
                && file in after && ManifestName(file) in after
                && ValidatePrefixManifest(net, codec, after[ManifestName(file)], after[file], file)
      {
        OutcomeDescribes(codec, before, after, SnapshotName(asns[i]), Update(net, show, fetch, asns[i]).value);
        AcceptedExactly(net, codec, after[ManifestName(SnapshotName(asns[i]))], after[SnapshotName(asns[i])],
                        SnapshotName(asns[i]));
      }
    }
  }

  lemma UpdateFresh(net: NetIP, show: Network -> string, fetch: string -> Option<seq<string>>, asn: string)
    requires Prints(net, show) && Update(net, show, fetch, asn).Some?
    ensures Fresh(net, Update(net, show, fetch, asn).value)
  {
    hide Extracted, Fresh;
    ExtractedFresh(net, show, fetch(asn).value);
  }

  lemma OutcomeDescribes(codec: Codec, before: Files, after: Files, file: string, values: seq<string>)
    requires Outcome(codec, before, after, file, values)
    ensures file in after && ManifestName(file) in after && Describes(codec, after[ManifestName(file)], after[file], file)
  {
    hide Describes, Kept, Snapshot;
  }

  /** The directory before the first run and after each of them. */
  ghost predicate Runs(net: NetIP, codec: Codec, show: Network -> string, fetches: seq<string -> Option<seq<string>>>,
                       asns: seq<string>, oks: seq<bool>, states: seq<Files>)
  {
    && |oks| == |fetches| && |states| == |fetches| + 1
    && forall k :: 0 <= k < |fetches| ==>
         Ran(net, codec, show, fetches[k], asns, oks[k], states[k], states[k+1])
  }

  /** Over any number of runs, some of them failed: starting from clean snapshots, or none, every snapshot is always
      clean, and the reader accepts every pair after each successful run. */
  lemma {:induction false} RunsKeepClean(net: NetIP, codec: Codec, show: Network -> string,
                                         fetches: seq<string -> Option<seq<string>>>, asns: seq<string>,
                                         oks: seq<bool>, states: seq<Files>, k: nat)
    requires Prints(net, show) && Runs(net, codec, show, fetches, asns, oks, states) && k <= |fetches|
    requires AllClean(net, states[0], asns)
    ensures AllClean(net, states[k], asns)
    ensures k > 0 && oks[k-1] ==> AllAccepted(net, codec, states[k], asns)
  {
    hide AllClean, AllAccepted, Ran, Prints;
    if k > 0 {
      RunsKeepClean(net, codec, show, fetches, asns, oks, states, k - 1);
      RunKeepsClean(net, codec, show, fetches[k-1], asns, oks[k-1], states[k-1], states[k]);
    }
  }

  /**
   * The exception is real even when the reader accepted the old pair: a snapshot with a repeated line is accepted
   * with the count of distinct values, kept by the guard, and then described by its count of lines.
   */
  lemma KeptPairRejected(net: NetIP, codec: Codec, line: string, other: string, file: string, now: string,
                         rewritten: string)
    requires Faithful(codec) && codec.validTime(now) && CanonicalLine(net, line)
    ensures var snapshot := Snapshot([line, line]);
            var manifest := codec.encode(Manifest(SCHEMA, file, 1, codec.digest(snapshot), now)) + "\n";
            && ValidatePrefixManifest(net, codec, manifest, snapshot, file)
            && Guarded(snapshot, [other])
            && (Describes(codec, rewritten, snapshot, file) ==>
                  !ValidatePrefixManifest(net, codec, rewritten, snapshot, file))
  {
    var lines := [line, line];
    var snapshot := Snapshot(lines);
    var manifest := codec.encode(Manifest(SCHEMA, file, 1, codec.digest(snapshot), now)) + "\n";
    hide ToLower, LineOk, Trimmed, Values, Join;
    ValuesOfJoin(lines);
    var low := Map(lines, ToLower);
    assert low[0] == low[1] && AllOk(net, lines);
    FoldReflexive(codec.digest(snapshot));
    hide Snapshot, Canon, AllOk, EqualFold;
    ParsedCount(net, snapshot);
    if Describes(codec, rewritten, snapshot, file) {
      AcceptedExactly(net, codec, rewritten, snapshot, file);
    }
  }

  /** The files of a system. */
  lemma FileNames()
    ensures SnapshotName("AS4809") == "as4809.txt" && ManifestName("as4809.txt") == "as4809.txt.manifest.json"
  {
    assert ToLower("AS4809") == "as4809";
  }

  lemma NameAt(asn: string, k: nat)
    requires k < |asn|
    ensures |SnapshotName(asn)| == |asn| + 4 && SnapshotName(asn)[k] == LowerChar(asn[k])
  {
  }

  lemma DifferAt(a: string, b: string, k: nat)
    requires k < |a| && k < |b| && (|a| != |b| || ('0' <= a[k] <= '9' && '0' <= b[k] <= '9' && a[k] != b[k]))
    ensures SnapshotName(a) != SnapshotName(b)
  {
    NameAt(a, k);
    NameAt(b, k);
    hide ToLower, SnapshotName;
  }

  /** The nine known systems have separate files. */
  lemma KnownNamesSeparate()
    ensures SeparateNames(KNOWN_ASNS)
  {
    var asns := KNOWN_ASNS;
    hide SnapshotName;
    forall i, j | 0 <= i < j < |asns| ensures SnapshotName(asns[i]) != SnapshotName(asns[j]) {
      var a, b := asns[i], asns[j];
      var k := if a[2] != b[2] then 2 else if a[3] != b[3] then 3 else 4;
      DifferAt(a, b, k);
    }
  }

  lemma NamesApart(asns: seq<string>, j: nat, i: nat)
    requires SeparateNames(asns) && j < i < |asns|
    ensures SnapshotName(asns[i]) != SnapshotName(asns[j])
    ensures SnapshotName(asns[i]) != ManifestName(SnapshotName(asns[j]))
    ensures SnapshotName(asns[j]) != ManifestName(SnapshotName(asns[i]))
    ensures ManifestName(SnapshotName(asns[i])) != ManifestName(SnapshotName(asns[j]))
  {
    SuffixApart(SnapshotName(asns[i]), SnapshotName(asns[j]));
    SnapshotIsNoManifest(asns[i], SnapshotName(asns[j]));
    SnapshotIsNoManifest(asns[j], SnapshotName(asns[i]));
  }

  lemma SuffixApart(a: string, b: string)
    ensures ManifestName(a) == ManifestName(b) ==> a == b
  {
    if ManifestName(a) == ManifestName(b) {
      assert a == ManifestName(a)[..|ManifestName(a)| - 14];
      assert b == ManifestName(b)[..|ManifestName(b)| - 14];
    }
  }

  lemma SnapshotIsNoManifest(asn: string, file: string)
    ensures SnapshotName(asn) != ManifestName(file)
  {
    var s, m := SnapshotName(asn), ManifestName(file);
    hide ToLower;
    assert s[|s|-1] == 't';
    assert m[|m|-1] == 'n';
  }

  lemma NotYetTouched(asns: seq<string>, i: nat)
    requires SeparateNames(asns) && i < |asns|
    ensures !Touches(asns[..i], SnapshotName(asns[i]))
  {
    hide SnapshotName, ManifestName;
    forall j | 0 <= j < i
      ensures SnapshotName(asns[i]) != SnapshotName(asns[j])
           && SnapshotName(asns[i]) != ManifestName(SnapshotName(asns[j]))
    {
      NamesApart(asns, j, i);
    }
  }

  lemma TouchesMore(asns: seq<string>, i: nat)
    requires i < |asns|
    ensures forall path :: Touches(asns[..i], path) ==> Touches(asns[..i+1], path) && Touches(asns, path)
    ensures forall path :: Touches(asns[..i+1], path) ==> Touches(asns, path)
    ensures Touches(asns[..i+1], SnapshotName(asns[i])) && Touches(asns[..i+1], ManifestName(SnapshotName(asns[i])))
  {
    hide SnapshotName, ManifestName;
    forall path | Touches(asns[..i], path) ensures Touches(asns[..i+1], path) {
      var k :| 0 <= k < i && (path == SnapshotName(asns[..i][k]) || path == ManifestName(SnapshotName(asns[..i][k])));
      assert asns[..i+1][k] == asns[..i][k];
    }
    forall path | Touches(asns[..i+1], path) ensures Touches(asns, path) {
      var k :| 0 <= k < i + 1
        && (path == SnapshotName(asns[..i+1][k]) || path == ManifestName(SnapshotName(asns[..i+1][k])));
      assert asns[..i+1][k] == asns[k];
    }
    assert asns[..i+1][i] == asns[i];
  }
}
