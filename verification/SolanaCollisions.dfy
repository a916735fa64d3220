// Which accepted Solana messages have the same bytes: none with non-negative readonly counts, also where the
// bytes of a legacy message read like those of a versioned one, and every message has a twin with a negative count.
module SolanaCollisions {
  import opened JsNumbers
  import opened SolanaMessage
  import opened Wrappers
  import Base58
  import Numerals

  predicate CountsNonNegative(header: Header) {
    header.numReadonlySignedAccounts >= 0 && header.numReadonlyUnsignedAccounts >= 0
  }

  // ---------- One version ----------

  lemma WrappingKeeps(a: Header, b: Header, keys: nat)
    requires ConsistentHeader(a, keys) && ConsistentHeader(b, keys) && keys <= 256
    requires CountsNonNegative(a) && CountsNonNegative(b)
    requires WrappedHeader(a) == WrappedHeader(b)
    ensures a == b
  {
  }

  /** What the bytes give without their version byte. */
  lemma SameVersion(m: Message, n: Message)
    requires Accepted(m) && Accepted(n) && m.version == n.version && MessageBytes(m) == MessageBytes(n)
    ensures Unresolved(m).(header := WrappedHeader(m.header)) == Unresolved(n).(header := WrappedHeader(n.header))
  {
    if m.version.V1? {
      VersionByte(m, 0x81, FixedBody(m));
      VersionByte(n, 0x81, FixedBody(n));
      FixedParsed(m);
      FixedParsed(n);
    } else {
      VersionByte(m, 0x80, CompactBody(m));
      VersionByte(n, 0x80, CompactBody(n));
      CompactParsed(m);
      CompactParsed(n);
    }
  }

  // ---------- Two versions ----------

  /** The first bytes of a legacy or v0 body. */
  lemma CompactStart(m: Message) returns (rest: seq<nat>)
    ensures ToBytes(CompactBody(m)) == ToBytes(HeaderBytes(m.header)) + (ToBytes(ShortVec(|m.accountKeys|)) + rest)
  {
    CompactLaidOut(m);
    var after :=
      KeyBytes(m.accountKeys)
      + (Base58Bytes(m.recentBlockhash)
         + (ShortVec(|m.instructions|) + (InstructionsBytes(m.instructions) + LookupSection(m))));
    rest := ToBytes(after);
    AppendLast(ShortVec(|m.accountKeys|), after);
    AppendLast(HeaderBytes(m.header), ShortVec(|m.accountKeys|) + after);
  }

  /** The count of 128 keys or more takes two bytes. */
  lemma LongCount(n: nat)
    requires 128 <= n <= 256
    ensures ToBytes(ShortVec(n)) == [n % 128 + 128, n / 128]
  {
    assert ShortVec(n / 128) == [n / 128];
  }

  lemma ShortCount(n: nat)
    requires n < 128
    ensures ToBytes(ShortVec(n)) == [n]
  {
  }

  /** The last header byte and the first byte of what follows, after a version byte or none. */
  lemma Fourth(header: seq<nat>, count: seq<nat>, rest: seq<nat>)
    requires |header| == 3 && |count| >= 1
    ensures (header + (count + rest))[3] == count[0]
    ensures |count| >= 2 ==> (header + (count + rest))[4] == count[1]
  {
  }

  lemma FourthAfterVersion(version: nat, header: seq<nat>, count: seq<nat>, rest: seq<nat>)
    requires |header| == 3 && |count| >= 1
    ensures var bytes := [version] + (header + (count + rest));
      |bytes| >= 5 && bytes[0] == version && bytes[3] == header[2] && bytes[4] == count[0]
  {
  }

  /** A legacy message whose first byte reads like a version byte has at least 128 keys. */
  predicate LooksLegacy(bytes: seq<nat>) {
    |bytes| >= 5 && (bytes[0] >= 0x80 ==> bytes[3] >= 128 && bytes[4] <= 2)
  }

  /** As many readonly keys take as many keys; and a v1 mask names the two required limits. */
  predicate LooksVersioned(bytes: seq<nat>) {
    |bytes| >= 5 &&
    ((bytes[0] == 0x80 && (bytes[3] >= 128 ==> bytes[4] >= 128)) || (bytes[0] == 0x81 && bytes[4] >= 12))
  }

  lemma Base58Length(m: Message)
    requires Accepted(m) && m.version.Legacy?
    ensures |CompactBody(m)| >= 35
  {
    CompactLaidOut(m);
    assert IsPublicKey(m.recentBlockhash);
    assert |Base58Bytes(m.recentBlockhash)| == 32;
  }

  lemma CompactLength(m: Message)
    requires Accepted(m) && m.version.Legacy?
    ensures |MessageBytes(m)| >= 5
  {
    var rest := CompactStart(m);
    Base58Length(m);
  }

  /** The bytes of a compact body with 128 keys or more. */
  lemma LongBody(m: Message)
    requires 128 <= |m.accountKeys| <= 256
    ensures var bytes := ToBytes(CompactBody(m)); |bytes| >= 5 && bytes[3] >= 128 && bytes[4] <= 2
  {
    var rest := CompactStart(m);
    LongCount(|m.accountKeys|);
    Fourth(ToBytes(HeaderBytes(m.header)), ToBytes(ShortVec(|m.accountKeys|)), rest);
  }

  lemma SignatureByte(n: nat)
    requires n < 128
    ensures n % 256 < 0x80
  {
  }

  lemma LegacyStart(m: Message)
    requires Accepted(m) && m.version.Legacy?
    ensures LooksLegacy(MessageBytes(m))
  {
    CompactLength(m);
    LegacyFirstByte(m);
    if m.header.numRequiredSignatures < 128 {
      SignatureByte(m.header.numRequiredSignatures);
    } else {
      LongBody(m);
      assert MessageBytes(m) == ToBytes(CompactBody(m));
    }
  }

  lemma CountByte(keys: nat)
    requires 1 <= keys <= 256
    ensures |ToBytes(ShortVec(keys))| >= 1
    ensures keys >= 128 ==> ToBytes(ShortVec(keys))[0] >= 128
  {
    if keys >= 128 {
      LongCount(keys);
    } else {
      ShortCount(keys);
    }
  }

  lemma ReadonlyByte(header: Header, keys: nat)
    requires ConsistentHeader(header, keys) && CountsNonNegative(header) && keys <= 256
    ensures ToBytes(HeaderBytes(header))[2] >= 128 ==> keys >= 128
  {
  }

  lemma VersionedBody(m: Message)
    requires ConsistentHeader(m.header, |m.accountKeys|) && CountsNonNegative(m.header) && |m.accountKeys| <= 256
    ensures LooksVersioned(ToBytes([0x80] + CompactBody(m))) && ToBytes([0x80] + CompactBody(m))[0] == 0x80
  {
    var rest := CompactStart(m);
    AppendLast([0x80], CompactBody(m));
    CountByte(|m.accountKeys|);
    ReadonlyByte(m.header, |m.accountKeys|);
    FourthAfterVersion(0x80, ToBytes(HeaderBytes(m.header)), ToBytes(ShortVec(|m.accountKeys|)), rest);
    assert ToBytes([0x80]) == [0x80];
  }

  lemma V0Start(m: Message)
    requires Accepted(m) && m.version.V0? && CountsNonNegative(m.header)
    ensures LooksVersioned(MessageBytes(m)) && MessageBytes(m)[0] == 0x80
  {
    VersionedBody(m);
  }

  lemma MaskByte(config: Config)
    ensures |ToBytes(LittleEndian(ConfigMask(config), 4))| == 4 && ToBytes(LittleEndian(ConfigMask(config), 4))[0] >= 12
  {
    MaskBits(config);
    FourBytes(ConfigMask(config));
  }

  lemma FixedStart(m: Message, config: Config) returns (rest: seq<nat>)
    requires m.transactionConfig == Some(config) && ValidConfig(config)
    ensures ToBytes(FixedBody(m))
         == ToBytes(HeaderBytes(m.header)) + (ToBytes(LittleEndian(ConfigMask(config), 4)) + rest)
  {
    FixedLaidOut(m);
    var (mask, all) := (LittleEndian(ConfigMask(config), 4), Concat(FixedSections(m)));
    var after := all[4..];
    assert all == mask + after;
    rest := ToBytes(after);
    AppendLast(mask, after);
    AppendLast(HeaderBytes(m.header), all);
  }

  lemma V1Start(m: Message)
    requires Accepted(m) && m.version.V1?
    ensures LooksVersioned(MessageBytes(m)) && MessageBytes(m)[0] == 0x81
  {
    var config := m.transactionConfig.value;
    var rest := FixedStart(m, config);
    AppendLast([0x81], FixedBody(m));
    MaskByte(config);
    FourthAfterVersion(0x81, ToBytes(HeaderBytes(m.header)), ToBytes(LittleEndian(ConfigMask(config), 4)), rest);
    assert ToBytes([0x81]) == [0x81];
  }

  lemma LooksDiffer(x: seq<nat>, y: seq<nat>)
    requires LooksLegacy(x) && LooksVersioned(y)
    ensures x != y
  {
  }

  /** A first byte of 0x80 or 0x81 takes 128 signatures, and then the number of keys gives the legacy message away. */
  lemma LegacyIsNotVersioned(m: Message, n: Message)
    requires Accepted(m) && m.version.Legacy? && Accepted(n) && !n.version.Legacy? && CountsNonNegative(n.header)
    ensures MessageBytes(m) != MessageBytes(n)
  {
    LegacyStart(m);
    if n.version.V0? {
      V0Start(n);
    } else {
      V1Start(n);
    }
    LooksDiffer(MessageBytes(m), MessageBytes(n));
  }

  /** Accepted messages with non-negative readonly counts and equal bytes are equal up to resolved lookups, across
      versions and for any number of signatures. */
  lemma EncodingInjective(m: Message, n: Message)
    requires Accepted(m) && Accepted(n) && CountsNonNegative(m.header) && CountsNonNegative(n.header)
    requires MessageBytes(m) == MessageBytes(n)
    ensures Unresolved(m) == Unresolved(n)
  {
    if m.version == n.version {
      SameVersion(m, n);
      WrappingKeeps(m.header, n.header, |m.accountKeys|);
    } else if m.version.Legacy? {
      LegacyIsNotVersioned(m, n);
    } else if n.version.Legacy? {
      LegacyIsNotVersioned(n, m);
    } else if m.version.V0? {
      V0Start(m);
      V1Start(n);
    } else {
      V0Start(n);
      V1Start(m);
    }
  }

  // ---------- Negative counts ----------

  lemma SameBytes(m: Message, n: Message)
    requires Accepted(m) && Accepted(n) && n == m.(header := n.header)
    requires ToBytes(HeaderBytes(n.header)) == ToBytes(HeaderBytes(m.header))
    ensures MessageBytes(n) == MessageBytes(m)
  {
    if m.version.V1? {
      var tail := Concat(FixedSections(m));
      AppendLast(HeaderBytes(m.header), tail);
      AppendLast(HeaderBytes(n.header), tail);
      AppendLast([0x81], FixedBody(m));
      AppendLast([0x81], FixedBody(n));
    } else {
      var tail := Concat(CompactSections(m));
      AppendLast(HeaderBytes(m.header), tail);
      AppendLast(HeaderBytes(n.header), tail);
      AppendLast([0x80], CompactBody(m));
      AppendLast([0x80], CompactBody(n));
    }
  }

  lemma StillAccepted(m: Message, n: Message)
    requires Accepted(m) && n == m.(header := n.header) && ConsistentHeader(n.header, |m.accountKeys|)
    ensures Accepted(n)
  {
    assert AccountCount(n) == AccountCount(m);
  }

  lemma ShiftedByte(a: Header, b: Header)
    requires b == a.(numReadonlySignedAccounts := b.numReadonlySignedAccounts)
    requires b.numReadonlySignedAccounts in {a.numReadonlySignedAccounts - 256, a.numReadonlySignedAccounts + 256}
    ensures ToBytes(HeaderBytes(b)) == ToBytes(HeaderBytes(a))
  {
  }

  /** The condition cannot be dropped: normalisation accepts negative readonly counts, and every accepted message
      has the bytes of a different accepted message with a negative count. */
  lemma NegativeCountCollides(m: Message) returns (n: Message)
    requires Accepted(m)
    ensures Accepted(n) && !CountsNonNegative(n.header) && MessageBytes(n) == MessageBytes(m)
    ensures Unresolved(n) != Unresolved(m)
  {
    var count := m.header.numReadonlySignedAccounts;
    var header := m.header.(numReadonlySignedAccounts := if SafeInteger(count - 256) then count - 256 else count + 256);
    n := m.(header := header);
    StillAccepted(m, n);
    ShiftedByte(m.header, n.header);
    SameBytes(m, n);
  }

  // ---------- There are such messages, also with 128 signatures and more ----------

  /** The key with this last byte and 31 zero bytes before it. */
  ghost function Key(k: nat): string {
    Base58.Encoded(Base58.Zeros(31) + [k])
  }

  lemma KeyValue(k: nat)
    ensures Numerals.Value(256, Base58.Zeros(31) + [k]) == k
  {
    Numerals.ValueLeadingZeros(256, 31, [k]);
    assert [k][..0] == [];
  }

  lemma KeyLeading(k: nat)
    ensures Base58.Leading(0, Base58.Zeros(31) + [k]) == if k == 0 then 32 else 31
  {
    Base58.LeadingIs(0, Base58.Zeros(31) + [k], if k == 0 then 32 else 31);
  }

  lemma KeyIsPublic(k: nat)
    requires k < 256
    ensures IsPublicKey(Key(k)) && Base58.Decoded(Key(k)) == Base58.Zeros(31) + [k]
  {
    var bytes := Base58.Zeros(31) + [k];
    Base58.DecodedEncoded(bytes);
    KeyValue(k);
    KeyLeading(k);
    assert Numerals.Pow(58, 2) == 3364;
    Base58.DigitsLength(58, k, 2);
    Numerals.DigitsValue(58, k);
  }

  ghost function Keys(count: nat): (keys: seq<string>)
    ensures |keys| == count
  {
    seq(count, i requires 0 <= i < count => Key(i))
  }

  lemma KeysValid(count: nat)
    requires count <= 256
    ensures AllPublicKeys(Keys(count)) && AllDifferent(Keys(count))
  {
    forall i | 0 <= i < count ensures IsPublicKey(Keys(count)[i]) {
      KeyIsPublic(i);
    }
    forall i, j | 0 <= i < j < count ensures Keys(count)[i] != Keys(count)[j] {
      KeyIsPublic(i);
      KeyIsPublic(j);
      assert (Base58.Zeros(31) + [i])[31] != (Base58.Zeros(31) + [j])[31];
    }
  }

  /** A message every account of which signs; a v0 one resolves one address, a v1 one has the two required limits. */
  ghost function Sample(version: Version, signers: nat): Message {
    var lookups := if version.V0? then [Lookup(Key(0), [7], [])] else [];
    var resolved := if version.V0? then [Key(0)] else [];
    Message(true, version, if version.V1? then Some(Config(Some(1), None, Some(1), None)) else None, Key(0), Key(0),
            Header(signers, 0, 0), Keys(signers), lookups, LoadedAddresses(resolved, []), [Instruction(0, [0], "")])
  }

  function MostSigners(version: Version): nat {
    match version case Legacy => 256 case V0 => 255 case V1 => 96
  }

  lemma SampleCounts(lookups: seq<Lookup>)
    requires lookups == [] || lookups == [Lookup(Key(0), [7], [])]
    ensures WritableCount(lookups) == |lookups| && ReadonlyCount(lookups) == 0
  {
    if lookups != [] {
      assert lookups[1..] == [];
    }
  }

  lemma SampleLookup()
    ensures ValidLookup(Lookup(Key(0), [7], []))
  {
    KeyIsPublic(0);
    assert ValidIndexes([7]) && ValidIndexes([]);
  }

  lemma SampleInstruction(accounts: nat, version: Version)
    requires accounts >= 1
    ensures ValidInstruction(Instruction(0, [0], ""), accounts, version)
  {
  }

  lemma OneKeyPublic(key: string)
    requires IsPublicKey(key)
    ensures AllPublicKeys([key])
  {
  }

  lemma SampleResolved(version: Version, signers: nat)
    requires 1 <= signers <= MostSigners(version)
    ensures var m := Sample(version, signers);
      && 1 <= AccountCount(m) <= 256 && AllPublicKeys(m.loadedAddresses.writable)
      && |m.loadedAddresses.writable| == |m.addressTableLookups|
  {
    KeyIsPublic(0);
    OneKeyPublic(Key(0));
    assert |Keys(signers)| == signers;
  }

  lemma SampleKeys(version: Version, signers: nat)
    requires 1 <= signers <= MostSigners(version)
    ensures var m := Sample(version, signers);
      && AllPublicKeys(m.accountKeys) && AllDifferent(m.accountKeys) && m.accountKeys[0] == m.feePayer
      && IsPublicKey(m.feePayer) && IsPublicKey(m.recentBlockhash)
  {
    KeysValid(signers);
    KeyIsPublic(0);
    assert Keys(signers)[0] == Key(0);
  }

  lemma SampleValid(version: Version, signers: nat)
    requires 1 <= signers <= MostSigners(version)
    ensures Accepted(Sample(version, signers))
  {
    var m := Sample(version, signers);
    SampleKeys(version, signers);
    SampleResolved(version, signers);
    SampleCounts(m.addressTableLookups);
    SampleLookup();
    SampleInstruction(AccountCount(m), version);
  }

  /** Every number of signatures is accepted that the limits on keys leave, in each version; from 128 on the parser
      does not read a legacy message as one. */
  lemma SampleAccepted(version: Version, signers: nat)
    requires 1 <= signers <= MostSigners(version)
    ensures Accepted(Sample(version, signers)) && CountsNonNegative(Sample(version, signers).header)
    ensures ParseMessage(MessageBytes(Sample(version, signers))) == Some(Unresolved(Sample(version, signers)))
       <==> !version.Legacy? || signers <= 127
  {
    SampleValid(version, signers);
    BytesDetermineMessage(Sample(version, signers));
  }
}
