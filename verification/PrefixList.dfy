/** The list of /24 blocks an IPv4 network covers, computed in 32-bit words. */
module PrefixList {
  import opened Bits
  import opened Decimal
  import opened Lists
  import opened Text

  const DEFAULT_LIMIT := 65536
  const WORD := 0x1_0000_0000

  /** A parsed network: mask length, mask width, and the masked address bytes. */
  datatype IPNet = IPNet(ones: int, bits: int, ip: seq<nat>)

  datatype Result = Entries(list: seq<string>) | Invalid | Unsupported | TooLarge(blocks: nat, limit: int)

  /** The four bytes of an IPv4 address, plain or mapped into IPv6. */
  function To4(ip: seq<nat>): Option<seq<nat>> {
    if |ip| == 4 then Some(ip)
    else if |ip| == 16 && (forall i :: 0 <= i < 10 ==> ip[i] == 0) && ip[10] == 255 && ip[11] == 255 then Some(ip[12..])
    else None
  }

  predicate IsBytes(ip: seq<nat>) {
    |ip| == 4 && forall i :: 0 <= i < 4 ==> ip[i] < 256
  }

  function BinaryIPToInt(ip: seq<nat>): (v: nat)
    requires IsBytes(ip)
    ensures v < WORD
  {
    ((ip[0] * 256 + ip[1]) * 256 + ip[2]) * 256 + ip[3]
  }

  function IntToBinaryIP(v: nat): (ip: seq<nat>)
    requires v < WORD
    ensures IsBytes(ip)
  {
    [v / 256 / 256 / 256, v / 256 / 256 % 256, v / 256 % 256, v % 256]
  }

  /** Bytes to word and back. */
  lemma BytesOfWord(ip: seq<nat>)
    requires IsBytes(ip)
    ensures IntToBinaryIP(BinaryIPToInt(ip)) == ip
  {
    var high := ip[0] * 256 + ip[1];
    var most := high * 256 + ip[2];
    var v := most * 256 + ip[3];
    assert v / 256 == most && v % 256 == ip[3];
    assert most / 256 == high && most % 256 == ip[2];
    assert high / 256 == ip[0] && high % 256 == ip[1];
  }

  /** Word to bytes and back. */
  lemma WordOfBytes(v: nat)
    requires v < WORD
    ensures BinaryIPToInt(IntToBinaryIP(v)) == v
  {
    var most, high := v / 256, v / 256 / 256;
    assert v == most * 256 + v % 256 && most == high * 256 + most % 256;
    assert high == high / 256 * 256 + high % 256;
  }

  /** What the parser promises: an IPv4 result is four bytes, already masked. */
  predicate Masked(n: IPNet) {
    n.bits == 32 ==>
      0 <= n.ones <= 32 && IsBytes(n.ip) && Aligned(BinaryIPToInt(n.ip), 32 - n.ones)
  }

  predicate Refused(n: IPNet) {
    n.bits != 32 || n.ones < 0 || n.ones > 32 || To4(n.ip).None?
  }

  predicate InNetwork(n: IPNet, address: nat)
    requires n.bits == 32 && Masked(n)
  {
    ShiftRight(address, 32 - n.ones) == ShiftRight(BinaryIPToInt(n.ip), 32 - n.ones)
  }

  /** The text of a /24 block given its top 24 bits. */
  function Label(block: nat): string {
    Join([Format(block / 256 / 256 % 256), Format(block / 256 % 256), Format(block % 256)], '.')
  }

  function Blocks(ones: int): nat {
    if ones < 24 then Pow2(if ones < 0 then 24 else 24 - ones) else 1
  }

  /** The labels of consecutive blocks. */
  function Labels(first: nat, count: nat): (r: seq<string>)
    ensures |r| == count && forall i :: 0 <= i < count ==> r[i] == Label(first + i)
  {
    seq(count, i requires 0 <= i < count => Label(first + i))
  }

  function Limit(maxEntries: int): int {
    if maxEntries <= 0 then DEFAULT_LIMIT else maxEntries
  }

  function Generated(parsed: Option<IPNet>, maxEntries: int): Result
    requires parsed.Some? ==> Masked(parsed.value)
  {
    if parsed.None? then Invalid
    else
      var n := parsed.value;
      if n.bits == 128 then Unsupported
      else if Refused(n) then Invalid
      else if Blocks(n.ones) > Limit(maxEntries) then TooLarge(Blocks(n.ones), Limit(maxEntries))
      else Entries(Labels(BinaryIPToInt(n.ip) / 256, Blocks(n.ones)))
  }

  lemma ShiftByte(x: nat)
    ensures ShiftRight(x, 8) == x / 256
  {
    ShiftTwice(x, 4, 4);
    ShiftFour(x);
    ShiftFour(x / 16);
  }

  lemma ShiftFour(x: nat)
    ensures ShiftRight(x, 4) == x / 16
  {
    assert ShiftRight(x, 4) == ShiftRight(x / 2, 3) == ShiftRight(x / 2 / 2, 2) == ShiftRight(x / 2 / 2 / 2, 1);
  }

  lemma Pow2Values()
    ensures Pow2(8) == 256 && Pow2(16) == DEFAULT_LIMIT && Pow2(24) == 0x100_0000
  {
    assert Pow2(4) == 16;
    assert Pow2(8) == 256;
    assert Pow2(12) == 4096;
    assert Pow2(16) == 65536;
    assert Pow2(20) == 0x10_0000;
  }

  /** The first block and the count never run past the last /24: no word wraps. */
  lemma BlocksFit(n: IPNet)
    requires n.bits == 32 && Masked(n)
    ensures BinaryIPToInt(n.ip) / 256 + Blocks(n.ones) <= 0x100_0000
    ensures n.ones <= 24 ==> Aligned(BinaryIPToInt(n.ip) / 256, 24 - n.ones)
  {
    var v := BinaryIPToInt(n.ip);
    hide BinaryIPToInt, Pow2;
    if n.ones <= 24 {
      AlignedShift(v, 8, 24 - n.ones);
      ShiftByte(v);
      Pow2Values();
      AlignedFits(v / 256, 24 - n.ones, 24);
      assert Blocks(24) == 1 == Pow2(0) by { Pow2Zero(); }
    }
  }

  lemma Pow2Zero()
    ensures Pow2(0) == 1
  {
  }

  method GeneratePrefixListWithLimit(parse: string -> Option<IPNet>, prefix: string, maxEntries: int)
    returns (r: Result)
    requires forall s :: parse(s).Some? ==> Masked(parse(s).value)
    ensures r == Generated(parse(prefix), maxEntries)
  {
    hide BinaryIPToInt, Label, Pow2, Aligned, WordLabel;
    var limit := maxEntries;
    if limit <= 0 {
      limit := DEFAULT_LIMIT;
    }
    var parsed := parse(prefix);
    if parsed.None? {
      return Invalid;
    }
    var n := parsed.value;
    if n.bits == 128 {
      return Unsupported;
    }
    if n.bits != 32 || n.ones < 0 || n.ones > 32 || To4(n.ip).None? {
      return Invalid;
    }
    var blocks := 1;
    if n.ones < 24 {
      blocks := Pow2(24 - n.ones);
    }
    if blocks > limit {
      return TooLarge(blocks, limit);
    }
    BlocksFit(n);
    var word := BinaryIPToInt(n.ip);
    var start := word - word % 256;
    var result: seq<string> := [];
    for index := 0 to blocks
      invariant result == Labels(word / 256, index)
    {
      var offset := index * 256 % WORD;
      var value := (start + offset) % WORD;
      NoWrap(word, index);
      result := result + [WordLabel(value)];
    }
    return Entries(result);
  }

  /** The text printed for a word. */
  function WordLabel(value: nat): string {
    Join([Format(value / 256 / 256 / 256), Format(value / 256 / 256 % 256), Format(value / 256 % 256)], '.')
  }

  lemma BlockOfWord(word: nat, index: nat)
    ensures var value := word - word % 256 + index * 256;
            value == 256 * (word / 256 + index) && value / 256 == word / 256 + index
  {
  }

  lemma TopByte(block: nat)
    requires block < 0x100_0000
    ensures block / 256 / 256 < 256 && block / 256 / 256 % 256 == block / 256 / 256
  {
  }

  /** One step of the loop: neither product nor sum leaves the word, and the word prints as its block. */
  lemma NoWrap(word: nat, index: nat)
    requires word / 256 + index < 0x100_0000
    ensures index * 256 < WORD && word - word % 256 + index * 256 < WORD
    ensures WordLabel(word - word % 256 + index * 256) == Label(word / 256 + index)
  {
    hide Join, Format;
    BlockOfWord(word, index);
    TopByte(word / 256 + index);
  }

  /** The older interface: the default limit, and nothing on any failure. */
  method GeneratePrefixList(parse: string -> Option<IPNet>, prefix: string) returns (r: Option<seq<string>>)
    requires forall s :: parse(s).Some? ==> Masked(parse(s).value)
    ensures var full := Generated(parse(prefix), 0);
            r == if full.Entries? then Some(full.list) else None
  {
    var full := GeneratePrefixListWithLimit(parse, prefix, DEFAULT_LIMIT);
    r := if full.Entries? then Some(full.list) else None;
  }

  // ----- what the list means -----

  lemma FormatPlain(n: nat)
    ensures '.' !in Format(n)
  {
  }

  /** Different blocks have different texts. */
  lemma LabelInjective(a: nat, b: nat)
    requires a < 0x100_0000 && b < 0x100_0000 && Label(a) == Label(b)
    ensures a == b
  {
    hide Format, Join, Split;
    LabelParts(a);
    LabelParts(b);
    assert forall i :: 0 <= i < 3 ==> Split(Label(a), '.')[i] == Split(Label(b), '.')[i];
    FormatValue(a / 256 / 256 % 256);
    FormatValue(b / 256 / 256 % 256);
    FormatValue(a / 256 % 256);
    FormatValue(b / 256 % 256);
    FormatValue(a % 256);
    FormatValue(b % 256);
    SplitBlock(a);
    SplitBlock(b);
  }

  lemma SplitBlock(a: nat)
    requires a < 0x100_0000
    ensures a == 0x1_0000 * (a / 256 / 256 % 256) + 256 * (a / 256 % 256) + a % 256
  {
  }

  lemma LabelParts(a: nat)
    ensures Split(Label(a), '.') == [Format(a / 256 / 256 % 256), Format(a / 256 % 256), Format(a % 256)]
  {
    hide Join, Split, Format;
    FormatPlain(a / 256 / 256 % 256);
    FormatPlain(a / 256 % 256);
    FormatPlain(a % 256);
    SplitOfJoin([Format(a / 256 / 256 % 256), Format(a / 256 % 256), Format(a % 256)], '.');
  }

  /** Exact cover: with a mask of at most 24 bits, an address is in the network exactly when its /24 is listed. */
  lemma ExactCover(n: IPNet, maxEntries: int, address: nat)
    requires n.bits == 32 && Masked(n) && n.ones <= 24 && address < WORD
    requires Generated(Some(n), maxEntries).Entries?
    ensures Label(address / 256) in Generated(Some(n), maxEntries).list <==> InNetwork(n, address)
  {
    var v, m := BinaryIPToInt(n.ip), 24 - n.ones;
    var first := v / 256;
    BlocksFit(n);
    hide BinaryIPToInt, Label, Pow2, Aligned;
    ShiftTwice(address, 8, m);
    ShiftTwice(v, 8, m);
    ShiftByte(address);
    ShiftByte(v);
    AlignedBlock(address / 256, first, m);
    assert Blocks(n.ones) == Pow2(m) by { Pow2Zero(); }
    hide ShiftRight;
    ListedExactly(first, Blocks(n.ones), address / 256);
  }

  lemma ListedExactly(first: nat, count: nat, block: nat)
    requires first + count <= 0x100_0000 && block < 0x100_0000
    ensures Label(block) in Labels(first, count) <==> first <= block < first + count
  {
    hide Label;
    if first <= block < first + count {
      assert Labels(first, count)[block - first] == Label(block);
    }
    if Label(block) in Labels(first, count) {
      var i :| 0 <= i < count && Labels(first, count)[i] == Label(block);
      LabelInjective(first + i, block);
    }
  }

  /** A longer mask lists the one block that contains the network. */
  lemma ContainingBlock(n: IPNet, maxEntries: int, address: nat)
    requires n.bits == 32 && Masked(n) && n.ones > 24 && InNetwork(n, address)
    ensures Generated(Some(n), maxEntries) == Entries([Label(address / 256)])
  {
    var v, k := BinaryIPToInt(n.ip), 32 - n.ones;
    hide BinaryIPToInt, Label, Pow2, Aligned;
    ShiftTwice(address, k, 8 - k);
    ShiftTwice(v, k, 8 - k);
    ShiftByte(address);
    ShiftByte(v);
    hide ShiftRight;
    assert Labels(v / 256, 1) == [Label(v / 256)];
  }

  lemma LabelsDistinct(first: nat, count: nat)
    requires first + count <= 0x100_0000
    ensures Distinct(Labels(first, count))
  {
    hide Label;
    var list := Labels(first, count);
    forall i, j | 0 <= i < j < count ensures list[i] != list[j] {
      if list[i] == list[j] {
        LabelInjective(first + i, first + j);
      }
    }
  }

  /** The list counts the blocks strictly upwards without repeats, one entry each, and respects the limit. */
  lemma CountsUp(n: IPNet, maxEntries: int) returns (first: nat)
    requires n.bits == 32 && Masked(n) && Generated(Some(n), maxEntries).Entries?
    ensures var list := Generated(Some(n), maxEntries).list;
            && |list| == (if n.ones < 24 then Pow2(24 - n.ones) else 1) <= Limit(maxEntries)
            && first + |list| <= 0x100_0000
            && (forall i :: 0 <= i < |list| ==> list[i] == Label(first + i))
            && Distinct(list)
  {
    first := BinaryIPToInt(n.ip) / 256;
    BlocksFit(n);
    hide BinaryIPToInt, Label, Pow2, Aligned, To4, Distinct;
    LabelsDistinct(first, Blocks(n.ones));
  }

  lemma {:induction false} Pow2Grows(a: nat, b: nat)
    requires a < b
    ensures Pow2(a) < Pow2(b)
  {
    if a < b - 1 {
      Pow2Grows(a, b - 1);
    }
  }

  /** With the default limit exactly the networks wider than /8 are too large. */
  lemma DefaultRefuses(n: IPNet)
    requires n.bits == 32 && Masked(n)
    ensures Generated(Some(n), 0).TooLarge? <==> n.ones < 8
  {
    hide BinaryIPToInt, Label, Aligned;
    Pow2Values();
    hide Pow2, Labels;
    if n.ones < 8 {
      Pow2Grows(16, 24 - n.ones);
    } else if 8 < n.ones < 24 {
      Pow2Grows(24 - n.ones, 16);
    }
  }

  lemma WordBytes(ip: seq<nat>)
    requires IsBytes(ip)
    ensures var v := BinaryIPToInt(ip);
            v % 256 == ip[3] && v / 256 % 256 == ip[2] && v / 256 / 256 % 256 == ip[1] && v / 256 / 256 / 256 == ip[0]
  {
    BytesOfWord(ip);
  }

  lemma LabelOfBytes(ip: seq<nat>)
    requires IsBytes(ip)
    ensures Label(BinaryIPToInt(ip) / 256) == Join([Format(ip[0]), Format(ip[1]), Format(ip[2])], '.')
  {
    hide BinaryIPToInt, Join, Format;
    var block := BinaryIPToInt(ip) / 256;
    WordBytes(ip);
    assert block % 256 == ip[2] && block / 256 % 256 == ip[1] && block / 256 / 256 % 256 == ip[0];
  }

  /** In terms of bytes: the first three of an address, printed in decimal with dots between them, are listed exactly
      when the address is in the network. */
  lemma ListedAddress(n: IPNet, maxEntries: int, ip: seq<nat>)
    requires n.bits == 32 && Masked(n) && n.ones <= 24 && IsBytes(ip)
    requires Generated(Some(n), maxEntries).Entries?
    ensures Join([Format(ip[0]), Format(ip[1]), Format(ip[2])], '.') in Generated(Some(n), maxEntries).list <==>
            BinaryIPToInt(ip) / Pow2(32 - n.ones) == BinaryIPToInt(n.ip) / Pow2(32 - n.ones)
  {
    var v := BinaryIPToInt(ip);
    LabelOfBytes(ip);
    hide Label, Join, Format;
    ExactCover(n, maxEntries, v);
    ShiftDivides(v, 32 - n.ones);
    ShiftDivides(BinaryIPToInt(n.ip), 32 - n.ones);
    hide BinaryIPToInt, Pow2, ShiftRight, Aligned, Generated;
  }

  /** Which inputs fail, and how. */
  lemma OutcomesExactly(parsed: Option<IPNet>, maxEntries: int)
    requires parsed.Some? ==> Masked(parsed.value)
    ensures var r, limit := Generated(parsed, maxEntries), if maxEntries <= 0 then 65536 else maxEntries;
            if parsed.None? || parsed.value.bits !in {32, 128} then r == Invalid
            else if parsed.value.bits == 128 then r == Unsupported
            else if parsed.value.ones < 24 && Pow2(24 - parsed.value.ones) > limit then
              r == TooLarge(Pow2(24 - parsed.value.ones), limit)
            else r.Entries?
  {
    hide Label, Aligned, BinaryIPToInt;
  }
}
