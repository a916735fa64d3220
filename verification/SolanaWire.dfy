// The bytes of small Solana messages written out field by field, every bit of the v1 mask, and acceptance in terms
// of the fields of a message.
module SolanaWire {
  import opened JsNumbers
  import opened SolanaMessage
  import opened Wrappers
  import Base58
  import Decimals
  import Numerals

  // ---------- Numbers ----------

  predicate Bit(n: nat, weight: nat)
    requires weight > 0
  {
    n / weight % 2 == 1
  }

  /** The lowest two bits announce a fee, the next two the limits that are always there, the fifth a heap size. */
  lemma MaskExactly(config: Config)
    requires ValidConfig(config)
    ensures Bit(ConfigMask(config), 1) <==> config.priorityFeeLamports.Some?
    ensures Bit(ConfigMask(config), 2) <==> config.priorityFeeLamports.Some?
    ensures Bit(ConfigMask(config), 4) <==> config.computeUnitLimit.Some?
    ensures Bit(ConfigMask(config), 8) <==> config.loadedAccountsDataSizeLimit.Some?
    ensures Bit(ConfigMask(config), 16) <==> config.heapSize.Some?
    ensures ConfigMask(config) < 32
  {
  }

  lemma ShortVecStep(n: nat)
    ensures n < 0x80 ==> ShortVec(n) == [n]
    ensures n >= 0x80 ==> ShortVec(n) == [n % 0x80 + 0x80] + ShortVec(n / 0x80)
  {
  }

  /** Seven bits a byte, the lowest first, all but the last byte with the top bit set. */
  lemma ShortVecExactly(low: nat, middle: nat, high: nat)
    requires low < 0x80 && middle < 0x80 && high < 0x80
    ensures ShortVec(low) == [low]
    ensures middle > 0 ==> ShortVec(low + 0x80 * middle) == [0x80 + low, middle]
    ensures high > 0 ==> ShortVec(low + 0x80 * middle + 0x4000 * high) == [0x80 + low, 0x80 + middle, high]
  {
    ShortVecStep(low);
    ShortVecStep(middle);
    ShortVecStep(high);
    ShortVecStep(low + 0x80 * middle);
    ShortVecStep(middle + 0x80 * high);
    var n := low + 0x80 * middle + 0x4000 * high;
    ShortVecStep(n);
    assert n / 0x80 == middle + 0x80 * high && n % 0x80 == low;
  }

  /** The digit of '2' is one and that of 'g' is 39, so "2g" is the byte 97; every leading '1' is a zero byte. */
  lemma Base58Example()
    ensures Base58.IsBase58("112g") && Base58.Decoded("112g") == [0, 0, 97]
  {
    var (ds, ones) := (Base58.DigitsOf("112g"), Base58.Leading('1', "112g"));
    assert ds == [0, 0] + [1] + [39];
    Numerals.ValueSnoc(58, [0, 0] + [1], 39);
    Numerals.ValueSnoc(58, [0, 0], 1);
    Numerals.ValueSnoc(58, [0], 0);
    Numerals.ValueSnoc(58, [], 0);
    assert [] + [0] == [0] && [0] + [0] == [0, 0];
    assert Numerals.Value(58, ds) == 97;
    assert Numerals.Digits(256, 0) == [];
    assert Numerals.Digits(256, 97) == [] + [97];
    Base58.LeadingIs('1', "112g", 2);
    assert Base58.Zeros(2) == [0, 0];
  }

  // ---------- Layout ----------

  /** An instruction of a legacy or v0 message: program, accounts, data, the two lists after their lengths. */
  lemma InstructionLaidOut(instruction: Instruction)
    requires Base58.IsBase58(instruction.data)
    ensures InstructionBytes(instruction)
         == [instruction.programIdIndex]
            + ShortVec(|instruction.accountIndexes|) + instruction.accountIndexes
            + ShortVec(|Base58.Decoded(instruction.data)|) + Base58.Decoded(instruction.data)
  {
    var accounts, data := instruction.accountIndexes, Base58Bytes(instruction.data);
    Nested5([instruction.programIdIndex], ShortVec(|accounts|), accounts, ShortVec(|data|), data);
  }

  /** A table: its key, the writable and the readonly indexes, each after their number. */
  lemma LookupLaidOut(lookup: Lookup)
    requires Base58.IsBase58(lookup.accountKey)
    ensures LookupBytes(lookup)
         == Base58.Decoded(lookup.accountKey)
            + ShortVec(|lookup.writableIndexes|) + lookup.writableIndexes
            + ShortVec(|lookup.readonlyIndexes|) + lookup.readonlyIndexes
  {
    Nested5(Base58Bytes(lookup.accountKey), ShortVec(|lookup.writableIndexes|), lookup.writableIndexes,
            ShortVec(|lookup.readonlyIndexes|), lookup.readonlyIndexes);
  }

  lemma PartsAccepted(m: Message)
    requires Accepted(m)
    ensures Base58.IsBase58(m.recentBlockhash)
    ensures forall i :: 0 <= i < |m.accountKeys| ==> Base58.IsBase58(m.accountKeys[i])
    ensures forall i :: 0 <= i < |m.instructions| ==> Base58.IsBase58(m.instructions[i].data)
    ensures forall i :: 0 <= i < |m.addressTableLookups| ==> Base58.IsBase58(m.addressTableLookups[i].accountKey)
  {
    assert forall i :: 0 <= i < |m.accountKeys| ==> IsPublicKey(m.accountKeys[i]);
    assert forall i :: 0 <= i < |m.instructions| ==> ValidInstruction(m.instructions[i], AccountCount(m), m.version);
    assert forall i :: 0 <= i < |m.addressTableLookups| ==> ValidLookup(m.addressTableLookups[i]);
  }

  lemma OneAndAnother<T>(x: T, y: T)
    ensures [x, y] == [x] + [y] && ([x] + [y])[1..] == [y] && [y][1..] == []
  {
  }

  lemma TwoKeys(a: string, b: string)
    requires Base58.IsBase58(a) && Base58.IsBase58(b)
    ensures KeyBytes([a, b]) == Base58.Decoded(a) + Base58.Decoded(b)
  {
    OneAndAnother(a, b);
    assert KeyBytes([b]) == Base58.Decoded(b) + [] == Base58.Decoded(b);
  }

  lemma TwoInstructions(x: Instruction, y: Instruction)
    ensures InstructionsBytes([x, y]) == InstructionBytes(x) + InstructionBytes(y)
  {
    OneAndAnother(x, y);
    assert InstructionsBytes([y]) == InstructionBytes(y) + [] == InstructionBytes(y);
  }

  lemma TwoHeaders(x: Instruction, y: Instruction)
    ensures InstructionHeaders([x, y]) == InstructionHeader(x) + InstructionHeader(y)
  {
    OneAndAnother(x, y);
    assert InstructionHeaders([y]) == InstructionHeader(y) + [] == InstructionHeader(y);
  }

  lemma TwoPayloads(x: Instruction, y: Instruction)
    ensures InstructionPayloads([x, y])
         == x.accountIndexes + (Base58Bytes(x.data) + (y.accountIndexes + Base58Bytes(y.data)))
  {
    OneAndAnother(x, y);
    var last := Base58Bytes(y.data);
    assert last + [] == last;
    assert InstructionPayloads([y]) == y.accountIndexes + (last + []);
  }

  lemma OneLookup(lookup: Lookup)
    ensures LookupsBytes([lookup]) == LookupBytes(lookup)
  {
    assert [lookup][1..] == [];
    assert LookupBytes(lookup) + [] == LookupBytes(lookup);
  }

  /** A flat list of sections, in the nesting of the layout lemmas. */
  lemma ConcatEight(h: seq<int>, c: seq<int>, k: seq<int>, l: seq<int>, hash: seq<int>, n: seq<int>, x: seq<int>,
                    y: seq<int>)
    ensures Concat([h, c, k, l, hash, n, x, y]) == h + (c + ((k + l) + (hash + (n + (x + y)))))
  {
    ConcatSeven(c, k, l, hash, n, x, y);
    assert [h, c, k, l, hash, n, x, y] == [h] + [c, k, l, hash, n, x, y];
    ConcatCons(h, [c, k, l, hash, n, x, y]);
    Nested3(k, l, hash + (n + (x + y)));
  }

  lemma ConcatPair(front: seq<seq<int>>, back: seq<seq<int>>)
    ensures Concat(front + back) == Concat(front) + Concat(back)
    decreases |front|
  {
    if front == [] {
      assert [] + back == back;
      assert [] + Concat(back) == Concat(back);
    } else {
      assert (front + back)[1..] == front[1..] + back;
      ConcatPair(front[1..], back);
      Nested3(front[0], Concat(front[1..]), Concat(back));
    }
  }

  lemma EmptyEnd(s: seq<int>)
    ensures s + [] == s
  {
  }

  /** A legacy message: header, keys, blockhash, instructions. */
  lemma LegacyBytes(m: Message, a: string, b: string, x: Instruction, y: Instruction)
    requires Accepted(m) && m.version.Legacy? && m.accountKeys == [a, b] && m.instructions == [x, y]
    ensures Base58.IsBase58(a) && Base58.IsBase58(b) && Base58.IsBase58(m.recentBlockhash)
    ensures MessageBytes(m)
         == ToBytes(Concat([[m.header.numRequiredSignatures, m.header.numReadonlySignedAccounts,
                             m.header.numReadonlyUnsignedAccounts],
                            [2], Base58.Decoded(a), Base58.Decoded(b), Base58.Decoded(m.recentBlockhash),
                            [2], InstructionBytes(x), InstructionBytes(y)]))
  {
    PartsAccepted(m);
    assert m.accountKeys[0] == a && m.accountKeys[1] == b;
    TwoKeys(a, b);
    TwoInstructions(x, y);
    CompactLaidOut(m);
    EmptyEnd(InstructionsBytes(m.instructions));
    assert ShortVec(2) == [2];
    ConcatEight(HeaderBytes(m.header), [2], Base58.Decoded(a), Base58.Decoded(b), Base58.Decoded(m.recentBlockhash),
                [2], InstructionBytes(x), InstructionBytes(y));
  }

  /** A v0 message: the version byte, then as a legacy one, then the tables. */
  lemma V0Bytes(m: Message, a: string, b: string, x: Instruction, y: Instruction, lookup: Lookup)
    requires Accepted(m) && m.version.V0? && m.accountKeys == [a, b] && m.instructions == [x, y]
    requires m.addressTableLookups == [lookup]
    ensures Base58.IsBase58(a) && Base58.IsBase58(b) && Base58.IsBase58(m.recentBlockhash)
    ensures MessageBytes(m)
         == ToBytes([0x80]
                    + Concat([[m.header.numRequiredSignatures, m.header.numReadonlySignedAccounts,
                               m.header.numReadonlyUnsignedAccounts],
                              [2], Base58.Decoded(a), Base58.Decoded(b), Base58.Decoded(m.recentBlockhash),
                              [2], InstructionBytes(x), InstructionBytes(y) + ([1] + LookupBytes(lookup))]))
  {
    PartsAccepted(m);
    assert m.accountKeys[0] == a && m.accountKeys[1] == b;
    TwoKeys(a, b);
    TwoInstructions(x, y);
    OneLookup(lookup);
    CompactLaidOut(m);
    assert ShortVec(2) == [2] && ShortVec(1) == [1];
    Nested3(InstructionBytes(x), InstructionBytes(y), [1] + LookupBytes(lookup));
    ConcatEight(HeaderBytes(m.header), [2], Base58.Decoded(a), Base58.Decoded(b), Base58.Decoded(m.recentBlockhash),
                [2], InstructionBytes(x), InstructionBytes(y) + ([1] + LookupBytes(lookup)));
  }

  /** The limits of a v1 message, in the order of their bits. */
  lemma LimitsLaidOut(config: Config)
    requires ValidConfig(config)
    ensures ConfigBytes(config)
         == Concat([match config.priorityFeeLamports
                    case None => []
                    case Some(fee) => LittleEndian(Decimals.ToNat(fee), 8),
                    LittleEndian(config.computeUnitLimit.value, 4),
                    LittleEndian(config.loadedAccountsDataSizeLimit.value, 4),
                    match config.heapSize
                    case None => []
                    case Some(heap) => LittleEndian(heap, 4)])
  {
    var (fee, units) := (OptionalBytes(FeeOf(config), 8), LittleEndian(config.computeUnitLimit.value, 4));
    var (loaded, heap) := (LittleEndian(config.loadedAccountsDataSizeLimit.value, 4), OptionalBytes(config.heapSize, 4));
    assert [fee, units, loaded, heap] == [fee] + [units, loaded, heap];
    assert [units, loaded, heap] == [units] + [loaded, heap];
    ConcatCons(fee, [units, loaded, heap]);
    ConcatCons(units, [loaded, heap]);
    ConcatTwo(loaded, heap);
  }

  lemma ListsOfTwo(m: Message, a: string, b: string, x: Instruction, y: Instruction)
    requires Accepted(m) && m.accountKeys == [a, b] && m.instructions == [x, y]
    ensures Base58.IsBase58(a) && Base58.IsBase58(b) && Base58.IsBase58(m.recentBlockhash)
    ensures Base58.IsBase58(x.data) && Base58.IsBase58(y.data)
  {
    PartsAccepted(m);
    assert m.accountKeys[0] == a && m.accountKeys[1] == b && m.instructions[0] == x && m.instructions[1] == y;
  }

  lemma MaskLaidOut(config: Config)
    requires ValidConfig(config)
    ensures LittleEndian(ConfigMask(config), 4) == [ConfigMask(config), 0, 0, 0]
  {
    MaskExactly(config);
    FourBytes(ConfigMask(config));
  }

  lemma HeaderLaidOut(instruction: Instruction)
    requires Base58.IsBase58(instruction.data)
    ensures InstructionHeader(instruction)
         == [instruction.programIdIndex, |instruction.accountIndexes|,
             |Base58.Decoded(instruction.data)| % 256, |Base58.Decoded(instruction.data)| / 256]
  {
  }

  /** What follows the header of a v1 message: mask, blockhash, the numbers of instructions and keys, keys, limits,
      instruction headers, payloads. */
  lemma V1Sections(m: Message, config: Config, a: string, b: string, x: Instruction, y: Instruction)
    requires Accepted(m) && m.version.V1? && m.accountKeys == [a, b] && m.instructions == [x, y]
    requires m.transactionConfig == Some(config)
    ensures Base58.IsBase58(a) && Base58.IsBase58(b) && Base58.IsBase58(m.recentBlockhash)
    ensures Base58.IsBase58(x.data) && Base58.IsBase58(y.data)
    ensures FixedSections(m)
         == [[ConfigMask(config), 0, 0, 0], Base58.Decoded(m.recentBlockhash), [2, 2],
             Base58.Decoded(a) + Base58.Decoded(b), ConfigBytes(config),
             InstructionHeader(x) + InstructionHeader(y),
             x.accountIndexes + (Base58.Decoded(x.data) + (y.accountIndexes + Base58.Decoded(y.data)))]
  {
    ListsOfTwo(m, a, b, x, y);
    TwoKeys(a, b);
    TwoHeaders(x, y);
    TwoPayloads(x, y);
    MaskLaidOut(config);
  }

  /** A v1 message: version byte and header, then the sections. */
  lemma V1Bytes(m: Message)
    requires Accepted(m) && m.version.V1?
    ensures MessageBytes(m)
         == ToBytes([0x81]
                    + ([m.header.numRequiredSignatures, m.header.numReadonlySignedAccounts,
                        m.header.numReadonlyUnsignedAccounts] + Concat(FixedSections(m))))
  {
  }

  // ---------- Acceptance ----------

  /** The limits: required ones positive, all of them in their widths, the fee a canonical decimal. */
  lemma ConfigOnFields(config: Config)
    ensures ValidConfig(config)
       <==> && config.computeUnitLimit.Some? && 0 <= config.computeUnitLimit.value < 0x1_0000_0000
            && config.loadedAccountsDataSizeLimit.Some?
            && 0 <= config.loadedAccountsDataSizeLimit.value < 0x1_0000_0000
            && (config.heapSize.Some? ==> 0 <= config.heapSize.value < 0x1_0000_0000)
            && (config.priorityFeeLamports.Some? ==>
                  exists fee: nat :: fee < 0x1_0000_0000_0000_0000 && config.priorityFeeLamports.value == Decimals.FromNat(fee))
  {
    if config.priorityFeeLamports.Some? {
      var text := config.priorityFeeLamports.value;
      if Decimals.IsCanonical(text) {
        Decimals.ToNatCanonical(text);
      }
      forall fee: nat | text == Decimals.FromNat(fee)
        ensures Decimals.IsCanonical(text) && Decimals.ToNat(text) == fee
      {
        Decimals.FromNatCanonical(fee);
      }
    }
  }

  /** Signers, readonly signers and readonly others: integers, with upper bounds only for the readonly ones. */
  lemma HeaderOnFields(header: Header, keys: nat)
    ensures ConsistentHeader(header, keys)
       <==> && 1 <= header.numRequiredSignatures <= keys && header.numRequiredSignatures < 9007199254740992
            && -9007199254740992 < header.numReadonlySignedAccounts < header.numRequiredSignatures
            && -9007199254740992 < header.numReadonlyUnsignedAccounts <= keys - header.numRequiredSignatures
            && header.numReadonlyUnsignedAccounts < 9007199254740992
  {
  }

  /** A key is 32 bytes in base58, a lookup such a key and two lists of different bytes. */
  lemma KeyAndLookupOnFields(key: string, lookup: Lookup)
    ensures IsPublicKey(key)
       <==> && 32 <= |key| <= 44 && (forall i :: 0 <= i < |key| ==> key[i] in Base58.ALPHABET)
            && |Base58Bytes(key)| == 32
    ensures ValidLookup(lookup)
       <==> IsPublicKey(lookup.accountKey) && ValidIndexes(lookup.writableIndexes) && ValidIndexes(lookup.readonlyIndexes)
  {
    forall i | 0 <= i < |key| ensures key[i] in Base58.ALPHABET <==> Base58.InAlphabet(key[i]) {
      Base58.AlphabetInOrder(key[i]);
    }
  }

  /** At most 256 different byte values. */
  lemma IndexesOnFields(indexes: seq<int>)
    ensures ValidIndexes(indexes)
       <==> && |indexes| <= 256 && (forall i :: 0 <= i < |indexes| ==> 0 <= indexes[i] < 256)
            && (forall i, j :: 0 <= i < j < |indexes| ==> indexes[i] != indexes[j])
  {
  }

  /** Program and accounts are positions among all the accounts; one account fewer fits a v1 instruction. */
  lemma InstructionOnFields(instruction: Instruction, accounts: nat, version: Version)
    ensures ValidInstruction(instruction, accounts, version)
       <==> && 0 <= instruction.programIdIndex < accounts && |instruction.data| <= 8192
            && |instruction.accountIndexes| <= (match version case Legacy => 256 case V0 => 256 case V1 => 255)
            && (forall i :: 0 <= i < |instruction.accountIndexes| ==> 0 <= instruction.accountIndexes[i] < accounts)
            && (forall i :: 0 <= i < |instruction.data| ==> instruction.data[i] in Base58.ALPHABET)
  {
    forall i | 0 <= i < |instruction.data|
      ensures instruction.data[i] in Base58.ALPHABET <==> Base58.InAlphabet(instruction.data[i])
    {
      Base58.AlphabetInOrder(instruction.data[i]);
    }
  }

  /** A message is accepted exactly when it meets every demand of its version. */
  lemma AcceptedOnFields(m: Message)
    ensures Accepted(m)
       <==> && m.mainnet && (m.transactionConfig.Some? <==> m.version.V1?)
            && (m.version.V1? ==>
                  && ValidConfig(m.transactionConfig.value)
                  && m.transactionConfig.value.computeUnitLimit.value > 0
                  && m.transactionConfig.value.loadedAccountsDataSizeLimit.value > 0)
            && IsPublicKey(m.feePayer) && IsPublicKey(m.recentBlockhash)
            && 1 <= |m.accountKeys| <= (match m.version case Legacy => 256 case V0 => 256 case V1 => 96)
            && (forall i :: 0 <= i < |m.accountKeys| ==> IsPublicKey(m.accountKeys[i]))
            && m.accountKeys[0] == m.feePayer
            && (forall i, j :: 0 <= i < j < |m.accountKeys| ==> m.accountKeys[i] != m.accountKeys[j])
            && ConsistentHeader(m.header, |m.accountKeys|)
            && |m.addressTableLookups| <= (match m.version case Legacy => 0 case V0 => 32 case V1 => 0)
            && (forall i :: 0 <= i < |m.addressTableLookups| ==> ValidLookup(m.addressTableLookups[i]))
            && |m.loadedAddresses.writable| == WritableCount(m.addressTableLookups)
            && |m.loadedAddresses.readonly| == ReadonlyCount(m.addressTableLookups)
            && (forall i :: 0 <= i < |m.loadedAddresses.writable| ==> IsPublicKey(m.loadedAddresses.writable[i]))
            && (forall i :: 0 <= i < |m.loadedAddresses.readonly| ==> IsPublicKey(m.loadedAddresses.readonly[i]))
            && |m.accountKeys| + |m.loadedAddresses.writable| + |m.loadedAddresses.readonly| <= 256
            && 1 <= |m.instructions| <= (match m.version case Legacy => 128 case V0 => 128 case V1 => 64)
            && (forall i :: 0 <= i < |m.instructions| ==>
                  ValidInstruction(m.instructions[i],
                    |m.accountKeys| + |m.loadedAddresses.writable| + |m.loadedAddresses.readonly|, m.version))
  {
  }
}
