// Solana transaction messages: which ones the SDK accepts, the bytes it hashes and signs, and the
// parser that shows how much of a message the bytes determine.
module SolanaMessage {
  import opened JsNumbers
  import opened Wrappers
  import Base58
  import Decimals
  import Numerals

  datatype Version = Legacy | V0 | V1

  datatype Config = Config(
    computeUnitLimit: Option<int>,
    heapSize: Option<int>,
    loadedAccountsDataSizeLimit: Option<int>,
    priorityFeeLamports: Option<string>)

  datatype Header = Header(
    numRequiredSignatures: int,
    numReadonlySignedAccounts: int,
    numReadonlyUnsignedAccounts: int)

  datatype Lookup = Lookup(accountKey: string, writableIndexes: seq<int>, readonlyIndexes: seq<int>)

  datatype Instruction = Instruction(programIdIndex: int, accountIndexes: seq<int>, data: string)

  datatype LoadedAddresses = LoadedAddresses(writable: seq<string>, readonly: seq<string>)

  datatype Message = Message(
    mainnet: bool,
    version: Version,
    transactionConfig: Option<Config>,
    feePayer: string,
    recentBlockhash: string,
    header: Header,
    accountKeys: seq<string>,
    addressTableLookups: seq<Lookup>,
    loadedAddresses: LoadedAddresses,
    instructions: seq<Instruction>)

  // ---------- Acceptance ----------

  ghost predicate IsPublicKey(key: string) {
    32 <= |key| <= 44 && Base58.IsBase58(key) && |Base58.Decoded(key)| == 32
  }

  method AssertPublicKey(key: string) returns (ok: bool)
    ensures ok == IsPublicKey(key)
  {
    if |key| < 32 || |key| > 44 {
      return false;
    }
    var length := Base58.DecodeBase58Length(key);
    ok := length == 32;
  }

  predicate AllDifferent<T(==)>(s: seq<T>) {
    forall i, j :: 0 <= i < j < |s| ==> s[i] != s[j]
  }

  predicate ValidIndexes(indexes: seq<int>) {
    |indexes| <= 256 && (forall i :: 0 <= i < |indexes| ==> 0 <= indexes[i] <= 255) && AllDifferent(indexes)
  }

  predicate IsU32(n: int) {
    0 <= n <= 0xFFFF_FFFF
  }

  predicate ValidConfig(config: Config) {
    && config.computeUnitLimit.Some? && IsU32(config.computeUnitLimit.value)
    && config.loadedAccountsDataSizeLimit.Some? && IsU32(config.loadedAccountsDataSizeLimit.value)
    && (config.heapSize.Some? ==> IsU32(config.heapSize.value))
    && (config.priorityFeeLamports.Some? ==>
          && Decimals.IsCanonical(config.priorityFeeLamports.value)
          && Decimals.ToNat(config.priorityFeeLamports.value) <= 0xFFFF_FFFF_FFFF_FFFF)
  }

  /** Upper bounds only: the source does not ask the readonly counts to be non-negative. */
  predicate ConsistentHeader(header: Header, keys: nat) {
    && SafeInteger(header.numRequiredSignatures)
    && SafeInteger(header.numReadonlySignedAccounts)
    && SafeInteger(header.numReadonlyUnsignedAccounts)
    && 1 <= header.numRequiredSignatures <= keys
    && header.numReadonlySignedAccounts < header.numRequiredSignatures
    && header.numReadonlyUnsignedAccounts <= keys - header.numRequiredSignatures
  }

  ghost function WritableCount(lookups: seq<Lookup>): nat {
    if lookups == [] then 0 else |lookups[0].writableIndexes| + WritableCount(lookups[1..])
  }

  ghost function ReadonlyCount(lookups: seq<Lookup>): nat {
    if lookups == [] then 0 else |lookups[0].readonlyIndexes| + ReadonlyCount(lookups[1..])
  }

  ghost predicate ValidLookup(lookup: Lookup) {
    IsPublicKey(lookup.accountKey) && ValidIndexes(lookup.writableIndexes) && ValidIndexes(lookup.readonlyIndexes)
  }

  predicate ValidInstruction(instruction: Instruction, accounts: int, version: Version) {
    && 0 <= instruction.programIdIndex < accounts
    && |instruction.accountIndexes| <= (if version.V1? then 255 else 256)
    && (forall i :: 0 <= i < |instruction.accountIndexes| ==> 0 <= instruction.accountIndexes[i] < accounts)
    && |instruction.data| <= 8192
    && Base58.IsBase58(instruction.data)
  }

  ghost predicate AllPublicKeys(keys: seq<string>) {
    forall i {:trigger IsPublicKey(keys[i])} :: 0 <= i < |keys| ==> IsPublicKey(keys[i])
  }

  ghost function AccountCount(m: Message): nat {
    |m.accountKeys| + |m.loadedAddresses.writable| + |m.loadedAddresses.readonly|
  }

  /** The messages that normalisation lets through; it returns a copy of them. */
  ghost predicate Accepted(m: Message) {
    && m.mainnet
    && (m.version.V1? <==> m.transactionConfig.Some?)
    && (m.version.V1? ==>
          && ValidConfig(m.transactionConfig.value)
          && m.transactionConfig.value.computeUnitLimit.value > 0
          && m.transactionConfig.value.loadedAccountsDataSizeLimit.value > 0)
    && IsPublicKey(m.feePayer) && IsPublicKey(m.recentBlockhash)
    && 1 <= |m.accountKeys| <= (if m.version.V1? then 96 else 256)
    && AllPublicKeys(m.accountKeys)
    && m.accountKeys[0] == m.feePayer && AllDifferent(m.accountKeys)
    && ConsistentHeader(m.header, |m.accountKeys|)
    && |m.addressTableLookups| <= (if m.version.V0? then 32 else 0)
    && (forall i {:trigger ValidLookup(m.addressTableLookups[i])} ::
          0 <= i < |m.addressTableLookups| ==> ValidLookup(m.addressTableLookups[i]))
    && |m.loadedAddresses.writable| == WritableCount(m.addressTableLookups)
    && |m.loadedAddresses.readonly| == ReadonlyCount(m.addressTableLookups)
    && AllPublicKeys(m.loadedAddresses.writable) && AllPublicKeys(m.loadedAddresses.readonly)
    && AccountCount(m) <= 256
    && 1 <= |m.instructions| <= (if m.version.V1? then 64 else 128)
    && (forall i {:trigger ValidInstruction(m.instructions[i], AccountCount(m), m.version)} ::
          0 <= i < |m.instructions| ==> ValidInstruction(m.instructions[i], AccountCount(m), m.version))
  }

  // ---------- The printed numbers, and the bytes they become ----------

  ghost function ShortVec(n: nat): seq<int>
    decreases n
  {
    if n < 0x80 then [n] else [n % 0x80 + 0x80] + ShortVec(n / 0x80)
  }

  method ShortVector(value: int) returns (bytes: Option<seq<int>>)
    ensures bytes == if 0 <= value <= 0xFFFF then Some(ShortVec(value)) else None
  {
    if value < 0 || value > 0xFFFF {
      return None;
    }
    var list: seq<int> := [];
    var remaining := value;
    while remaining >= 0x80
      invariant remaining >= 0
      invariant ShortVec(value) == list + ShortVec(remaining)
    {
      assert list + ([remaining % 0x80 + 0x80] + ShortVec(remaining / 0x80))
          == list + [remaining % 0x80 + 0x80] + ShortVec(remaining / 0x80);
      list := list + [remaining % 0x80 + 0x80];
      remaining := remaining / 0x80;
    }
    bytes := Some(list + [remaining]);
  }

  lemma HeadTail<T>(s: seq<T>)
    requires s != []
    ensures s == [s[0]] + s[1..]
  {
  }

  /** `size` little-endian bytes. */
  ghost function LittleEndian(n: nat, size: nat): (bytes: seq<int>)
    ensures |bytes| == size
    decreases size
  {
    if size == 0 then [] else [n % 256] + LittleEndian(n / 256, size - 1)
  }

  lemma FourBytes(n: nat)
    ensures LittleEndian(n, 4) == [n % 256, n / 0x100 % 256, n / 0x1_0000 % 256, n / 0x100_0000 % 256]
  {
    var (a, b, c) := (n / 256, n / 0x1_0000, n / 0x100_0000);
    assert a / 256 == b && b / 256 == c;
    assert LittleEndian(c, 1) == [c % 256];
    assert LittleEndian(b, 2) == [b % 256] + LittleEndian(c, 1);
    assert LittleEndian(a, 3) == [a % 256] + LittleEndian(b, 2);
    assert LittleEndian(n, 4) == [n % 256] + LittleEndian(a, 3);
  }

  function Uint32LittleEndian(value: int): (bytes: Option<seq<int>>)
    ensures bytes.Some? <==> IsU32(value)
    ensures IsU32(value) ==> bytes.value == LittleEndian(value, 4)
  {
    if !IsU32(value) then None
    else
      FourBytes(value);
      Some([value % 256, value / 0x100 % 256, value / 0x1_0000 % 256, value / 0x100_0000 % 256])
  }

  lemma {:induction false} LittleEndianSnoc(n: nat, size: nat)
    ensures LittleEndian(n, size + 1) == LittleEndian(n, size) + [n / Numerals.Pow(256, size) % 256]
    decreases size
  {
    if size > 0 {
      LittleEndianSnoc(n / 256, size - 1);
      Numerals.DivDiv(n, 256, Numerals.Pow(256, size - 1));
      var last := [n / Numerals.Pow(256, size) % 256];
      assert [n % 256] + (LittleEndian(n / 256, size - 1) + last) == [n % 256] + LittleEndian(n / 256, size - 1) + last;
    }
  }

  method Uint64LittleEndian(value: int) returns (bytes: Option<seq<int>>)
    ensures bytes == if 0 <= value <= 0xFFFF_FFFF_FFFF_FFFF then Some(LittleEndian(value, 8)) else None
  {
    if value < 0 || value > 0xFFFF_FFFF_FFFF_FFFF {
      return None;
    }
    var list: seq<int> := [];
    for index := 0 to 8
      invariant list == LittleEndian(value, index)
    {
      LittleEndianSnoc(value, index);
      list := list + [value / Numerals.Pow(256, index) % 256];
    }
    bytes := Some(list);
  }

  /** `Uint8Array.from`: every number is reduced modulo 256. */
  function ToBytes(numbers: seq<int>): (bytes: seq<nat>)
    ensures |bytes| == |numbers|
  {
    seq(|numbers|, i requires 0 <= i < |numbers| => numbers[i] % 256)
  }

  // ---------- Encoding ----------

  ghost function Base58Bytes(s: string): (bytes: seq<int>) {
    if Base58.IsBase58(s) then Base58.Decoded(s) else []
  }

  ghost function KeyBytes(keys: seq<string>): seq<int> {
    if keys == [] then [] else Base58Bytes(keys[0]) + KeyBytes(keys[1..])
  }

  /** A compact length, then the elements. */
  ghost function VectorBytes(elements: seq<int>): seq<int> {
    ShortVec(|elements|) + elements
  }

  ghost function InstructionBytes(instruction: Instruction): seq<int> {
    [instruction.programIdIndex]
    + (VectorBytes(instruction.accountIndexes) + VectorBytes(Base58Bytes(instruction.data)))
  }

  ghost function InstructionsBytes(instructions: seq<Instruction>): seq<int> {
    if instructions == [] then [] else InstructionBytes(instructions[0]) + InstructionsBytes(instructions[1..])
  }

  ghost function LookupBytes(lookup: Lookup): seq<int> {
    Base58Bytes(lookup.accountKey) + (VectorBytes(lookup.writableIndexes) + VectorBytes(lookup.readonlyIndexes))
  }

  ghost function LookupsBytes(lookups: seq<Lookup>): seq<int> {
    if lookups == [] then [] else LookupBytes(lookups[0]) + LookupsBytes(lookups[1..])
  }

  ghost function HeaderBytes(header: Header): seq<int> {
    [header.numRequiredSignatures, header.numReadonlySignedAccounts, header.numReadonlyUnsignedAccounts]
  }

  ghost function LookupSection(m: Message): seq<int> {
    if m.version.V0? then ShortVec(|m.addressTableLookups|) + LookupsBytes(m.addressTableLookups) else []
  }

  ghost function Concat(sections: seq<seq<int>>): seq<int> {
    if sections == [] then [] else sections[0] + Concat(sections[1..])
  }

  /** What follows the header of a legacy or v0 message. */
  ghost function CompactSections(m: Message): seq<seq<int>> {
    [ShortVec(|m.accountKeys|), KeyBytes(m.accountKeys), Base58Bytes(m.recentBlockhash), ShortVec(|m.instructions|),
     InstructionsBytes(m.instructions), LookupSection(m)]
  }

  /** Legacy and v0 bodies, after the version byte. */
  ghost function CompactBody(m: Message): seq<int> {
    HeaderBytes(m.header) + Concat(CompactSections(m))
  }

  // Version 1: a mask of the configured limits, then fixed-width sections.

  function ConfigMask(config: Config): nat {
    (if config.priorityFeeLamports.Some? then 0x3 else 0) + 0x4 + 0x8 + (if config.heapSize.Some? then 0x10 else 0)
  }

  ghost function OptionalBytes(n: Option<int>, size: nat): seq<int>
    requires n.Some? ==> n.value >= 0
  {
    if n.Some? then LittleEndian(n.value, size) else []
  }

  function FeeOf(config: Config): Option<int>
    requires ValidConfig(config)
  {
    if config.priorityFeeLamports.Some? then Some(Decimals.ToNat(config.priorityFeeLamports.value)) else None
  }

  ghost function ConfigBytes(config: Config): seq<int>
    requires ValidConfig(config)
  {
    OptionalBytes(FeeOf(config), 8)
    + (LittleEndian(config.computeUnitLimit.value, 4)
       + (LittleEndian(config.loadedAccountsDataSizeLimit.value, 4)
          + OptionalBytes(config.heapSize, 4)))
  }

  ghost function InstructionHeader(instruction: Instruction): seq<int> {
    var size := |Base58Bytes(instruction.data)|;
    [instruction.programIdIndex, |instruction.accountIndexes|, size % 0x100, size / 0x100]
  }

  ghost function InstructionHeaders(instructions: seq<Instruction>): seq<int> {
    if instructions == [] then [] else InstructionHeader(instructions[0]) + InstructionHeaders(instructions[1..])
  }

  ghost function InstructionPayloads(instructions: seq<Instruction>): seq<int> {
    if instructions == [] then []
    else instructions[0].accountIndexes + (Base58Bytes(instructions[0].data) + InstructionPayloads(instructions[1..]))
  }

  /** What follows the header of a v1 message. */
  ghost function FixedSections(m: Message): seq<seq<int>>
    requires m.transactionConfig.Some? && ValidConfig(m.transactionConfig.value)
  {
    [LittleEndian(ConfigMask(m.transactionConfig.value), 4), Base58Bytes(m.recentBlockhash),
     [|m.instructions|, |m.accountKeys|], KeyBytes(m.accountKeys), ConfigBytes(m.transactionConfig.value),
     InstructionHeaders(m.instructions), InstructionPayloads(m.instructions)]
  }

  ghost function FixedBody(m: Message): seq<int>
    requires m.transactionConfig.Some? && ValidConfig(m.transactionConfig.value)
  {
    HeaderBytes(m.header) + Concat(FixedSections(m))
  }

  /** The numbers the encoder produces, before they are stored as bytes. */
  ghost function MessageNumbers(m: Message): seq<int>
    requires Accepted(m)
  {
    match m.version
    case Legacy => CompactBody(m)
    case V0 => [0x80] + CompactBody(m)
    case V1 => [0x81] + FixedBody(m)
  }

  lemma ConcatCons(section: seq<int>, sections: seq<seq<int>>)
    ensures Concat([section] + sections) == section + Concat(sections)
  {
    assert ([section] + sections)[1..] == sections;
  }

  lemma ConcatTwo(a: seq<int>, b: seq<int>)
    ensures Concat([a, b]) == a + b
  {
    assert [a, b] == [a] + [b] && [b] == [b] + [] && b + [] == b;
    ConcatCons(a, [b]);
    ConcatCons(b, []);
  }

  lemma ConcatSix(a: seq<int>, b: seq<int>, c: seq<int>, d: seq<int>, e: seq<int>, f: seq<int>)
    ensures Concat([a, b, c, d, e, f]) == a + (b + (c + (d + (e + f))))
  {
    assert [a, b, c, d, e, f] == [a] + [b, c, d, e, f] && [b, c, d, e, f] == [b] + [c, d, e, f];
    assert [c, d, e, f] == [c] + [d, e, f] && [d, e, f] == [d] + [e, f];
    ConcatCons(a, [b, c, d, e, f]);
    ConcatCons(b, [c, d, e, f]);
    ConcatCons(c, [d, e, f]);
    ConcatCons(d, [e, f]);
    ConcatTwo(e, f);
  }

  lemma ConcatSeven(a: seq<int>, b: seq<int>, c: seq<int>, d: seq<int>, e: seq<int>, f: seq<int>, g: seq<int>)
    ensures Concat([a, b, c, d, e, f, g]) == a + (b + (c + (d + (e + (f + g)))))
  {
    assert [a, b, c, d, e, f, g] == [a] + [b, c, d, e, f, g];
    ConcatCons(a, [b, c, d, e, f, g]);
    ConcatSix(b, c, d, e, f, g);
  }

  lemma CompactLaidOut(m: Message)
    ensures Concat(CompactSections(m))
         == ShortVec(|m.accountKeys|)
            + (KeyBytes(m.accountKeys)
               + (Base58Bytes(m.recentBlockhash)
                  + (ShortVec(|m.instructions|)
                     + (InstructionsBytes(m.instructions) + LookupSection(m)))))
  {
    ConcatSix(ShortVec(|m.accountKeys|), KeyBytes(m.accountKeys), Base58Bytes(m.recentBlockhash),
              ShortVec(|m.instructions|), InstructionsBytes(m.instructions), LookupSection(m));
  }

  lemma FixedLaidOut(m: Message)
    requires m.transactionConfig.Some? && ValidConfig(m.transactionConfig.value)
    ensures Concat(FixedSections(m))
         == LittleEndian(ConfigMask(m.transactionConfig.value), 4)
            + (Base58Bytes(m.recentBlockhash)
               + ([|m.instructions|, |m.accountKeys|]
                  + (KeyBytes(m.accountKeys)
                     + (ConfigBytes(m.transactionConfig.value)
                        + (InstructionHeaders(m.instructions) + InstructionPayloads(m.instructions))))))
  {
    ConcatSeven(LittleEndian(ConfigMask(m.transactionConfig.value), 4), Base58Bytes(m.recentBlockhash),
                [|m.instructions|, |m.accountKeys|], KeyBytes(m.accountKeys), ConfigBytes(m.transactionConfig.value),
                InstructionHeaders(m.instructions), InstructionPayloads(m.instructions));
  }

  // ---------- The parser ----------

  datatype Parsed<+T> = Fail | Got(value: T, rest: seq<nat>)

  function ParseByte(bytes: seq<nat>): Parsed<nat> {
    if bytes == [] then Fail else Got(bytes[0], bytes[1..])
  }

  function ParseShortVec(bytes: seq<nat>): Parsed<nat> {
    if bytes == [] then Fail
    else if bytes[0] < 0x80 then Got(bytes[0], bytes[1..])
    else
      match ParseShortVec(bytes[1..])
      case Fail => Fail
      case Got(high, rest) => Got(bytes[0] - 0x80 + 0x80 * high, rest)
  }

  function ParseBytes(count: nat, bytes: seq<nat>): Parsed<seq<nat>> {
    if |bytes| < count then Fail else Got(bytes[..count], bytes[count..])
  }

  function ParseLittleEndian(size: nat, bytes: seq<nat>): Parsed<nat>
    decreases size
  {
    if size == 0 then Got(0, bytes)
    else if bytes == [] then Fail
    else
      match ParseLittleEndian(size - 1, bytes[1..])
      case Fail => Fail
      case Got(high, rest) => Got(bytes[0] + 256 * high, rest)
  }

  ghost function ParseKey(bytes: seq<nat>): Parsed<string> {
    match ParseBytes(32, bytes)
    case Fail => Fail
    case Got(key, rest) => Got(Base58.Encoded(key), rest)
  }

  ghost function ParseKeys(count: nat, bytes: seq<nat>): Parsed<seq<string>>
    decreases count
  {
    if count == 0 then Got([], bytes)
    else
      match ParseKey(bytes)
      case Fail => Fail
      case Got(key, rest) =>
        match ParseKeys(count - 1, rest)
        case Fail => Fail
        case Got(keys, rest) => Got([key] + keys, rest)
  }

  /** A compact length, then that many bytes. */
  function ParseVector(bytes: seq<nat>): Parsed<seq<nat>> {
    match ParseShortVec(bytes)
    case Fail => Fail
    case Got(count, rest) => ParseBytes(count, rest)
  }

  ghost function ParseInstruction(bytes: seq<nat>): Parsed<Instruction> {
    match ParseByte(bytes)
    case Fail => Fail
    case Got(programIdIndex, rest) =>
      match ParseVector(rest)
      case Fail => Fail
      case Got(accounts, rest) =>
        match ParseVector(rest)
        case Fail => Fail
        case Got(data, rest) => Got(Instruction(programIdIndex, accounts, Base58.Encoded(data)), rest)
  }

  ghost function ParseInstructions(count: nat, bytes: seq<nat>): Parsed<seq<Instruction>>
    decreases count
  {
    if count == 0 then Got([], bytes)
    else
      match ParseInstruction(bytes)
      case Fail => Fail
      case Got(instruction, rest) =>
        match ParseInstructions(count - 1, rest)
        case Fail => Fail
        case Got(instructions, rest) => Got([instruction] + instructions, rest)
  }

  ghost function ParseLookup(bytes: seq<nat>): Parsed<Lookup> {
    match ParseKey(bytes)
    case Fail => Fail
    case Got(key, rest) =>
      match ParseVector(rest)
      case Fail => Fail
      case Got(writable, rest) =>
        match ParseVector(rest)
        case Fail => Fail
        case Got(readonly, rest) => Got(Lookup(key, writable, readonly), rest)
  }

  ghost function ParseLookups(count: nat, bytes: seq<nat>): Parsed<seq<Lookup>>
    decreases count
  {
    if count == 0 then Got([], bytes)
    else
      match ParseLookup(bytes)
      case Fail => Fail
      case Got(lookup, rest) =>
        match ParseLookups(count - 1, rest)
        case Fail => Fail
        case Got(lookups, rest) => Got([lookup] + lookups, rest)
  }

  function ParseHeader(bytes: seq<nat>): Parsed<Header> {
    if |bytes| < 3 then Fail else Got(Header(bytes[0], bytes[1], bytes[2]), bytes[3..])
  }

  ghost function ParseLookupSection(version: Version, bytes: seq<nat>): Parsed<seq<Lookup>> {
    if !version.V0? then Got([], bytes)
    else
      match ParseShortVec(bytes)
      case Fail => Fail
      case Got(count, rest) => ParseLookups(count, rest)
  }

  /** A message from its wire parts; the first static key pays, and nothing resolves the lookups. */
  function Assemble(version: Version, config: Option<Config>, header: Header, blockhash: string, keys: seq<string>,
                    lookups: seq<Lookup>, instructions: seq<Instruction>): Message
  {
    Message(true, version, config, if keys == [] then "" else keys[0], blockhash, header, keys, lookups,
            LoadedAddresses([], []), instructions)
  }

  ghost function ParseCompact(version: Version, bytes: seq<nat>): Parsed<Message> {
    match ParseHeader(bytes)
    case Fail => Fail
    case Got(header, rest) =>
      match ParseShortVec(rest)
      case Fail => Fail
      case Got(keyCount, rest) =>
        match ParseKeys(keyCount, rest)
        case Fail => Fail
        case Got(keys, rest) =>
          match ParseKey(rest)
          case Fail => Fail
          case Got(blockhash, rest) =>
            match ParseShortVec(rest)
            case Fail => Fail
            case Got(count, rest) =>
              match ParseInstructions(count, rest)
              case Fail => Fail
              case Got(instructions, rest) =>
                match ParseLookupSection(version, rest)
                case Fail => Fail
                case Got(lookups, rest) =>
                  Got(Assemble(version, None, header, blockhash, keys, lookups, instructions), rest)
  }

  // ---------- Parsing undoes encoding, part by part ----------

  lemma BytesAppend(a: seq<int>, b: seq<int>, rest: seq<nat>)
    ensures ToBytes(a + b) + rest == ToBytes(a) + (ToBytes(b) + rest)
  {
  }

  ghost predicate AreBytes(s: seq<int>) {
    forall i :: 0 <= i < |s| ==> 0 <= s[i] < 256
  }

  lemma BytesSame(s: seq<int>)
    requires AreBytes(s)
    ensures ToBytes(s) == s
  {
  }

  lemma {:induction false} ShortVecParsed(n: nat, rest: seq<nat>)
    ensures ParseShortVec(ToBytes(ShortVec(n)) + rest) == Got(n, rest)
    decreases n
  {
    if n < 0x80 {
      assert ToBytes([n]) + rest == [n] + rest;
    } else {
      ShortVecParsed(n / 0x80, rest);
      var low := n % 0x80 + 0x80;
      BytesAppend([low], ShortVec(n / 0x80), rest);
      var bytes := ToBytes(ShortVec(n)) + rest;
      assert ToBytes([low]) == [low];
      assert bytes[0] == low && bytes[1..] == ToBytes(ShortVec(n / 0x80)) + rest;
    }
  }

  lemma {:induction false} LittleEndianParsed(n: nat, size: nat, rest: seq<nat>)
    requires n < Numerals.Pow(256, size)
    ensures ParseLittleEndian(size, ToBytes(LittleEndian(n, size)) + rest) == Got(n, rest)
    decreases size
  {
    if size == 0 {
      assert ToBytes([]) + rest == rest;
    } else {
      LittleEndianParsed(n / 256, size - 1, rest);
      BytesAppend([n % 256], LittleEndian(n / 256, size - 1), rest);
      var bytes := ToBytes(LittleEndian(n, size)) + rest;
      assert bytes[0] == n % 256 && bytes[1..] == ToBytes(LittleEndian(n / 256, size - 1)) + rest;
    }
  }

  lemma BytesParsed(s: seq<int>, rest: seq<nat>)
    requires AreBytes(s)
    ensures ParseBytes(|s|, ToBytes(s) + rest) == Got(s, rest)
  {
    BytesSame(s);
    assert (ToBytes(s) + rest)[..|s|] == s && (ToBytes(s) + rest)[|s|..] == rest;
  }

  lemma VectorParsed(s: seq<int>, rest: seq<nat>)
    requires AreBytes(s)
    ensures ParseVector(ToBytes(VectorBytes(s)) + rest) == Got(s, rest)
  {
    BytesAppend(ShortVec(|s|), s, rest);
    ShortVecParsed(|s|, ToBytes(s) + rest);
    BytesParsed(s, rest);
  }

  lemma Base58AreBytes(s: string)
    requires Base58.IsBase58(s)
    ensures AreBytes(Base58Bytes(s)) && Base58.Encoded(Base58.Decoded(s)) == s
  {
    Base58.DecodedLength(s);
    Base58.EncodedDecoded(s);
  }

  lemma KeyParsed(key: string, rest: seq<nat>)
    requires IsPublicKey(key)
    ensures ParseKey(ToBytes(Base58Bytes(key)) + rest) == Got(key, rest)
  {
    Base58AreBytes(key);
    BytesParsed(Base58Bytes(key), rest);
  }

  lemma KeysStep(count: nat, bytes: seq<nat>, key: string, middle: seq<nat>, keys: seq<string>, rest: seq<nat>)
    requires count > 0 && ParseKey(bytes) == Got(key, middle) && ParseKeys(count - 1, middle) == Got(keys, rest)
    ensures ParseKeys(count, bytes) == Got([key] + keys, rest)
  {
  }

  lemma {:induction false} KeysParsed(keys: seq<string>, rest: seq<nat>)
    requires AllPublicKeys(keys)
    ensures ParseKeys(|keys|, ToBytes(KeyBytes(keys)) + rest) == Got(keys, rest)
  {
    if keys == [] {
      assert ToBytes([]) + rest == rest;
    } else {
      var middle := ToBytes(KeyBytes(keys[1..])) + rest;
      BytesAppend(Base58Bytes(keys[0]), KeyBytes(keys[1..]), rest);
      KeyParsed(keys[0], middle);
      KeysParsed(keys[1..], rest);
      KeysStep(|keys|, ToBytes(KeyBytes(keys)) + rest, keys[0], middle, keys[1..], rest);
      assert keys == [keys[0]] + keys[1..];
    }
  }

  ghost predicate Encodable(instruction: Instruction) {
    && 0 <= instruction.programIdIndex < 256
    && AreBytes(instruction.accountIndexes)
    && Base58.IsBase58(instruction.data)
  }

  ghost predicate AllEncodable(instructions: seq<Instruction>) {
    forall i :: 0 <= i < |instructions| ==> Encodable(instructions[i])
  }

  lemma InstructionParsed(instruction: Instruction, rest: seq<nat>)
    requires Encodable(instruction)
    ensures ParseInstruction(ToBytes(InstructionBytes(instruction)) + rest) == Got(instruction, rest)
  {
    var p, accounts, data := instruction.programIdIndex, instruction.accountIndexes, Base58Bytes(instruction.data);
    BytesAppend([p], VectorBytes(accounts) + VectorBytes(data), rest);
    BytesAppend(VectorBytes(accounts), VectorBytes(data), rest);
    var afterId := ToBytes(VectorBytes(accounts)) + (ToBytes(VectorBytes(data)) + rest);
    assert ToBytes([p]) + afterId == [p] + afterId;
    assert ([p] + afterId)[1..] == afterId;
    VectorParsed(accounts, ToBytes(VectorBytes(data)) + rest);
    Base58AreBytes(instruction.data);
    VectorParsed(data, rest);
  }

  lemma InstructionsStep(count: nat, bytes: seq<nat>, instruction: Instruction, middle: seq<nat>,
                         instructions: seq<Instruction>, rest: seq<nat>)
    requires count > 0 && ParseInstruction(bytes) == Got(instruction, middle)
    requires ParseInstructions(count - 1, middle) == Got(instructions, rest)
    ensures ParseInstructions(count, bytes) == Got([instruction] + instructions, rest)
  {
  }

  lemma {:induction false} InstructionsParsed(instructions: seq<Instruction>, rest: seq<nat>)
    requires AllEncodable(instructions)
    ensures ParseInstructions(|instructions|, ToBytes(InstructionsBytes(instructions)) + rest) == Got(instructions, rest)
  {
    if instructions == [] {
      assert ToBytes([]) + rest == rest;
    } else {
      var (first, others) := (instructions[0], instructions[1..]);
      var middle := ToBytes(InstructionsBytes(others)) + rest;
      BytesAppend(InstructionBytes(first), InstructionsBytes(others), rest);
      InstructionParsed(first, middle);
      InstructionsParsed(others, rest);
      InstructionsStep(|instructions|, ToBytes(InstructionsBytes(instructions)) + rest, first, middle, others, rest);
      HeadTail(instructions);
    }
  }

  lemma LookupParsed(lookup: Lookup, rest: seq<nat>)
    requires ValidLookup(lookup)
    ensures ParseLookup(ToBytes(LookupBytes(lookup)) + rest) == Got(lookup, rest)
  {
    var w, r := VectorBytes(lookup.writableIndexes), VectorBytes(lookup.readonlyIndexes);
    BytesAppend(Base58Bytes(lookup.accountKey), w + r, rest);
    BytesAppend(w, r, rest);
    KeyParsed(lookup.accountKey, ToBytes(w) + (ToBytes(r) + rest));
    VectorParsed(lookup.writableIndexes, ToBytes(r) + rest);
    VectorParsed(lookup.readonlyIndexes, rest);
  }

  lemma LookupsStep(count: nat, bytes: seq<nat>, lookup: Lookup, middle: seq<nat>, lookups: seq<Lookup>, rest: seq<nat>)
    requires count > 0 && ParseLookup(bytes) == Got(lookup, middle)
    requires ParseLookups(count - 1, middle) == Got(lookups, rest)
    ensures ParseLookups(count, bytes) == Got([lookup] + lookups, rest)
  {
  }

  lemma {:induction false} LookupsParsed(lookups: seq<Lookup>, rest: seq<nat>)
    requires forall i :: 0 <= i < |lookups| ==> ValidLookup(lookups[i])
    ensures ParseLookups(|lookups|, ToBytes(LookupsBytes(lookups)) + rest) == Got(lookups, rest)
  {
    if lookups == [] {
      assert ToBytes([]) + rest == rest;
    } else {
      var (first, others) := (lookups[0], lookups[1..]);
      var middle := ToBytes(LookupsBytes(others)) + rest;
      BytesAppend(LookupBytes(first), LookupsBytes(others), rest);
      LookupParsed(first, middle);
      LookupsParsed(others, rest);
      LookupsStep(|lookups|, ToBytes(LookupsBytes(lookups)) + rest, first, middle, others, rest);
      HeadTail(lookups);
    }
  }

  lemma LookupSectionParsed(m: Message)
    requires Accepted(m) && !m.version.V1?
    ensures ParseLookupSection(m.version, ToBytes(LookupSection(m))) == Got(m.addressTableLookups, [])
  {
    if m.version.V0? {
      var lookups := m.addressTableLookups;
      assert ToBytes(LookupSection(m)) == ToBytes(LookupSection(m)) + [];
      BytesAppend(ShortVec(|lookups|), LookupsBytes(lookups), []);
      ShortVecParsed(|lookups|, ToBytes(LookupsBytes(lookups)) + []);
      LookupsParsed(lookups, []);
    } else {
      assert m.addressTableLookups == [];
    }
  }

  lemma InstructionsEncodable(m: Message)
    requires Accepted(m)
    ensures AllEncodable(m.instructions)
  {
    forall i | 0 <= i < |m.instructions| ensures Encodable(m.instructions[i]) {
      assert ValidInstruction(m.instructions[i], AccountCount(m), m.version);
    }
  }

  /** A message as the bytes know it: without the addresses its lookups resolve to. */
  ghost function Unresolved(m: Message): Message {
    m.(loadedAddresses := LoadedAddresses([], []))
  }

  /** The header as three bytes hold it. */
  function WrappedHeader(header: Header): Header {
    Header(header.numRequiredSignatures % 256, header.numReadonlySignedAccounts % 256,
           header.numReadonlyUnsignedAccounts % 256)
  }

  lemma HeaderParsed(header: Header, rest: seq<nat>)
    ensures ParseHeader(ToBytes(HeaderBytes(header)) + rest) == Got(WrappedHeader(header), rest)
  {
    var bytes := ToBytes(HeaderBytes(header)) + rest;
    assert bytes[3..] == rest;
  }

  lemma CompactStages(version: Version, bytes: seq<nat>, header: Header, a: seq<nat>, b: seq<nat>,
                      keys: seq<string>, c: seq<nat>, blockhash: string, d: seq<nat>, count: nat, e: seq<nat>,
                      instructions: seq<Instruction>, f: seq<nat>, lookups: seq<Lookup>, rest: seq<nat>)
    requires ParseHeader(bytes) == Got(header, a)
    requires ParseShortVec(a) == Got(|keys|, b) && ParseKeys(|keys|, b) == Got(keys, c)
    requires ParseKey(c) == Got(blockhash, d)
    requires ParseShortVec(d) == Got(count, e) && ParseInstructions(count, e) == Got(instructions, f)
    requires ParseLookupSection(version, f) == Got(lookups, rest)
    ensures ParseCompact(version, bytes)
         == Got(Assemble(version, None, header, blockhash, keys, lookups, instructions), rest)
  {
  }

  lemma AppendLast(a: seq<int>, b: seq<int>)
    ensures ToBytes(a + b) == ToBytes(a) + ToBytes(b)
  {
  }

  lemma CompactBytes(m: Message, a: seq<nat>, b: seq<nat>, c: seq<nat>, d: seq<nat>, e: seq<nat>, f: seq<nat>)
    requires f == ToBytes(LookupSection(m))
    requires e == ToBytes(InstructionsBytes(m.instructions)) + f
    requires d == ToBytes(ShortVec(|m.instructions|)) + e
    requires c == ToBytes(Base58Bytes(m.recentBlockhash)) + d
    requires b == ToBytes(KeyBytes(m.accountKeys)) + c
    requires a == ToBytes(ShortVec(|m.accountKeys|)) + b
    ensures ToBytes(CompactBody(m)) == ToBytes(HeaderBytes(m.header)) + a
  {
    CompactLaidOut(m);
    var lookups := LookupSection(m);
    var instructions := InstructionsBytes(m.instructions) + lookups;
    var counted := ShortVec(|m.instructions|) + instructions;
    var hashed := Base58Bytes(m.recentBlockhash) + counted;
    var keyed := KeyBytes(m.accountKeys) + hashed;
    AppendLast(InstructionsBytes(m.instructions), lookups);
    AppendLast(ShortVec(|m.instructions|), instructions);
    AppendLast(Base58Bytes(m.recentBlockhash), counted);
    AppendLast(KeyBytes(m.accountKeys), hashed);
    AppendLast(ShortVec(|m.accountKeys|), keyed);
    AppendLast(HeaderBytes(m.header), ShortVec(|m.accountKeys|) + keyed);
  }

  lemma CompactPartsParsed(m: Message)
    requires AllPublicKeys(m.accountKeys) && IsPublicKey(m.recentBlockhash) && AllEncodable(m.instructions)
    requires ParseLookupSection(m.version, ToBytes(LookupSection(m))) == Got(m.addressTableLookups, [])
    ensures ParseCompact(m.version, ToBytes(CompactBody(m)))
         == Got(Assemble(m.version, None, WrappedHeader(m.header), m.recentBlockhash, m.accountKeys,
                         m.addressTableLookups, m.instructions), [])
  {
    var f := ToBytes(LookupSection(m));
    var e := ToBytes(InstructionsBytes(m.instructions)) + f;
    var d := ToBytes(ShortVec(|m.instructions|)) + e;
    var c := ToBytes(Base58Bytes(m.recentBlockhash)) + d;
    var b := ToBytes(KeyBytes(m.accountKeys)) + c;
    var a := ToBytes(ShortVec(|m.accountKeys|)) + b;
    CompactBytes(m, a, b, c, d, e, f);
    HeaderParsed(m.header, a);
    ShortVecParsed(|m.accountKeys|, b);
    KeysParsed(m.accountKeys, c);
    KeyParsed(m.recentBlockhash, d);
    ShortVecParsed(|m.instructions|, e);
    InstructionsParsed(m.instructions, f);
    CompactStages(m.version, ToBytes(CompactBody(m)), WrappedHeader(m.header), a, b, m.accountKeys, c,
                  m.recentBlockhash, d, |m.instructions|, e, m.instructions, f, m.addressTableLookups, []);
  }

  lemma CompactParsed(m: Message)
    requires Accepted(m) && !m.version.V1?
    ensures ParseCompact(m.version, ToBytes(CompactBody(m)))
         == Got(Unresolved(m).(header := WrappedHeader(m.header)), [])
  {
    InstructionsEncodable(m);
    LookupSectionParsed(m);
    CompactPartsParsed(m);
  }

  // ---------- Version 1 ----------

  function ParseOptional(present: bool, size: nat, bytes: seq<nat>): Parsed<Option<nat>> {
    if !present then Got(None, bytes)
    else
      match ParseLittleEndian(size, bytes)
      case Fail => Fail
      case Got(n, rest) => Got(Some(n), rest)
  }

  function ParseConfig(hasFee: bool, hasHeap: bool, bytes: seq<nat>): Parsed<Config> {
    match ParseOptional(hasFee, 8, bytes)
    case Fail => Fail
    case Got(fee, rest) =>
      match ParseLittleEndian(4, rest)
      case Fail => Fail
      case Got(units, rest) =>
        match ParseLittleEndian(4, rest)
        case Fail => Fail
        case Got(loaded, rest) =>
          match ParseOptional(hasHeap, 4, rest)
          case Fail => Fail
          case Got(heap, rest) =>
            Got(Config(Some(units), heap, Some(loaded), if fee.Some? then Some(Decimals.FromNat(fee.value)) else None),
                rest)
  }

  datatype Head = Head(programIdIndex: nat, accounts: nat, size: nat)

  function ParseHeads(count: nat, bytes: seq<nat>): Parsed<seq<Head>>
    decreases count
  {
    if count == 0 then Got([], bytes)
    else if |bytes| < 4 then Fail
    else
      match ParseHeads(count - 1, bytes[4..])
      case Fail => Fail
      case Got(heads, rest) => Got([Head(bytes[0], bytes[1], bytes[2] + 0x100 * bytes[3])] + heads, rest)
  }

  ghost function ParsePayloads(heads: seq<Head>, bytes: seq<nat>): Parsed<seq<Instruction>> {
    if heads == [] then Got([], bytes)
    else
      match ParseBytes(heads[0].accounts, bytes)
      case Fail => Fail
      case Got(accounts, rest) =>
        match ParseBytes(heads[0].size, rest)
        case Fail => Fail
        case Got(data, rest) =>
          match ParsePayloads(heads[1..], rest)
          case Fail => Fail
          case Got(instructions, rest) =>
            Got([Instruction(heads[0].programIdIndex, accounts, Base58.Encoded(data))] + instructions, rest)
  }

  ghost function ParseFixed(bytes: seq<nat>): Parsed<Message> {
    match ParseHeader(bytes)
    case Fail => Fail
    case Got(header, rest) =>
      match ParseLittleEndian(4, rest)
      case Fail => Fail
      case Got(mask, rest) =>
        match ParseKey(rest)
        case Fail => Fail
        case Got(blockhash, rest) =>
          match ParseBytes(2, rest)
          case Fail => Fail
          case Got(counts, rest) =>
            match ParseKeys(counts[1], rest)
            case Fail => Fail
            case Got(keys, rest) =>
              match ParseConfig(mask % 4 == 3, mask / 16 % 2 == 1, rest)
              case Fail => Fail
              case Got(config, rest) =>
                match ParseHeads(counts[0], rest)
                case Fail => Fail
                case Got(heads, rest) =>
                  match ParsePayloads(heads, rest)
                  case Fail => Fail
                  case Got(instructions, rest) =>
                    Got(Assemble(V1, Some(config), header, blockhash, keys, [], instructions), rest)
  }

  lemma Pow256()
    ensures Numerals.Pow(256, 4) == 0x1_0000_0000
    ensures Numerals.Pow(256, 8) == 0x1_0000_0000_0000_0000
  {
    assert Numerals.Pow(256, 2) == 0x1_0000;
    assert Numerals.Pow(256, 4) == 0x1_0000_0000;
    assert Numerals.Pow(256, 6) == 0x1_0000_0000_0000;
  }

  lemma OptionalParsed(n: Option<int>, size: nat, rest: seq<nat>)
    requires n.Some? ==> 0 <= n.value < Numerals.Pow(256, size)
    ensures ParseOptional(n.Some?, size, ToBytes(OptionalBytes(n, size)) + rest) == Got(n, rest)
  {
    if n.Some? {
      LittleEndianParsed(n.value, size, rest);
    } else {
      assert ToBytes([]) + rest == rest;
    }
  }

  lemma ConfigSplit(config: Config, a: seq<nat>, b: seq<nat>, c: seq<nat>, rest: seq<nat>)
    requires ValidConfig(config)
    requires c == ToBytes(OptionalBytes(config.heapSize, 4)) + rest
    requires b == ToBytes(LittleEndian(config.loadedAccountsDataSizeLimit.value, 4)) + c
    requires a == ToBytes(LittleEndian(config.computeUnitLimit.value, 4)) + b
    ensures ToBytes(ConfigBytes(config)) + rest == ToBytes(OptionalBytes(FeeOf(config), 8)) + a
  {
    var heap := OptionalBytes(config.heapSize, 4);
    var loaded := LittleEndian(config.loadedAccountsDataSizeLimit.value, 4);
    var units := LittleEndian(config.computeUnitLimit.value, 4);
    BytesAppend(OptionalBytes(FeeOf(config), 8), units + (loaded + heap), rest);
    BytesAppend(units, loaded + heap, rest);
    BytesAppend(loaded, heap, rest);
  }

  lemma ConfigStages(bytes: seq<nat>, fee: Option<nat>, a: seq<nat>, units: nat, b: seq<nat>, loaded: nat, c: seq<nat>,
                     heap: Option<nat>, rest: seq<nat>)
    requires ParseOptional(fee.Some?, 8, bytes) == Got(fee, a)
    requires ParseLittleEndian(4, a) == Got(units, b) && ParseLittleEndian(4, b) == Got(loaded, c)
    requires ParseOptional(heap.Some?, 4, c) == Got(heap, rest)
    ensures ParseConfig(fee.Some?, heap.Some?, bytes)
         == Got(Config(Some(units), heap, Some(loaded),
                       if fee.Some? then Some(Decimals.FromNat(fee.value)) else None), rest)
  {
  }

  lemma ConfigParsed(config: Config, rest: seq<nat>)
    requires ValidConfig(config)
    ensures ParseConfig(config.priorityFeeLamports.Some?, config.heapSize.Some?, ToBytes(ConfigBytes(config)) + rest)
         == Got(config, rest)
  {
    Pow256();
    var units, loaded := config.computeUnitLimit.value, config.loadedAccountsDataSizeLimit.value;
    var c := ToBytes(OptionalBytes(config.heapSize, 4)) + rest;
    var b := ToBytes(LittleEndian(loaded, 4)) + c;
    var a := ToBytes(LittleEndian(units, 4)) + b;
    var bytes := ToBytes(OptionalBytes(FeeOf(config), 8)) + a;
    ConfigSplit(config, a, b, c, rest);
    OptionalParsed(FeeOf(config), 8, a);
    LittleEndianParsed(units, 4, b);
    LittleEndianParsed(loaded, 4, c);
    OptionalParsed(config.heapSize, 4, rest);
    ConfigStages(bytes, FeeOf(config), a, units, b, loaded, c, config.heapSize, rest);
    if config.priorityFeeLamports.Some? {
      Decimals.ToNatCanonical(config.priorityFeeLamports.value);
    }
  }

  lemma MaskBits(config: Config)
    ensures ConfigMask(config) % 4 == 3 <==> config.priorityFeeLamports.Some?
    ensures ConfigMask(config) / 16 % 2 == 1 <==> config.heapSize.Some?
    ensures ConfigMask(config) < 0x20
  {
  }

  ghost predicate FixedEncodable(instruction: Instruction) {
    Encodable(instruction) && |instruction.accountIndexes| <= 255 && |instruction.data| <= 8192
  }

  ghost predicate AllFixedEncodable(instructions: seq<Instruction>) {
    forall i :: 0 <= i < |instructions| ==> FixedEncodable(instructions[i])
  }

  ghost function HeadOf(instruction: Instruction): Head
    requires FixedEncodable(instruction)
  {
    Head(instruction.programIdIndex, |instruction.accountIndexes|, |Base58Bytes(instruction.data)|)
  }

  ghost function HeadsOf(instructions: seq<Instruction>): (heads: seq<Head>)
    requires AllFixedEncodable(instructions)
  {
    if instructions == [] then [] else [HeadOf(instructions[0])] + HeadsOf(instructions[1..])
  }

  lemma HeadParsed(instruction: Instruction, rest: seq<nat>)
    requires FixedEncodable(instruction)
    ensures var bytes := ToBytes(InstructionHeader(instruction)) + rest;
      && |bytes| >= 4 && bytes[4..] == rest
      && Head(bytes[0], bytes[1], bytes[2] + 0x100 * bytes[3]) == HeadOf(instruction)
  {
    Base58.DecodedLength(instruction.data);
    BytesSame(InstructionHeader(instruction));
    assert (ToBytes(InstructionHeader(instruction)) + rest)[4..] == rest;
  }

  lemma HeadsStep(count: nat, bytes: seq<nat>, head: Head, heads: seq<Head>, rest: seq<nat>)
    requires count > 0 && |bytes| >= 4 && head == Head(bytes[0], bytes[1], bytes[2] + 0x100 * bytes[3])
    requires ParseHeads(count - 1, bytes[4..]) == Got(heads, rest)
    ensures ParseHeads(count, bytes) == Got([head] + heads, rest)
  {
  }

  lemma {:induction false} HeadsParsed(instructions: seq<Instruction>, rest: seq<nat>)
    requires AllFixedEncodable(instructions)
    ensures ParseHeads(|instructions|, ToBytes(InstructionHeaders(instructions)) + rest) == Got(HeadsOf(instructions), rest)
  {
    if instructions == [] {
      assert ToBytes([]) + rest == rest;
    } else {
      var (first, others) := (instructions[0], instructions[1..]);
      var middle := ToBytes(InstructionHeaders(others)) + rest;
      BytesAppend(InstructionHeader(first), InstructionHeaders(others), rest);
      HeadParsed(first, middle);
      HeadsParsed(others, rest);
      HeadsStep(|instructions|, ToBytes(InstructionHeaders(instructions)) + rest, HeadOf(first), HeadsOf(others), rest);
    }
  }

  lemma PayloadsStep(heads: seq<Head>, bytes: seq<nat>, first: Instruction, a: seq<nat>, data: seq<nat>, b: seq<nat>,
                     others: seq<Instruction>, rest: seq<nat>)
    requires heads != [] && first.programIdIndex == heads[0].programIdIndex
    requires AreBytes(first.accountIndexes) && first.data == Base58.Encoded(data)
    requires ParseBytes(heads[0].accounts, bytes) == Got(first.accountIndexes, a)
    requires ParseBytes(heads[0].size, a) == Got(data, b)
    requires ParsePayloads(heads[1..], b) == Got(others, rest)
    ensures ParsePayloads(heads, bytes) == Got([first] + others, rest)
  {
  }

  lemma {:induction false} PayloadsParsed(instructions: seq<Instruction>, rest: seq<nat>)
    requires AllFixedEncodable(instructions)
    ensures ParsePayloads(HeadsOf(instructions), ToBytes(InstructionPayloads(instructions)) + rest)
         == Got(instructions, rest)
  {
    if instructions == [] {
      assert ToBytes([]) + rest == rest;
    } else {
      var (first, others) := (instructions[0], instructions[1..]);
      var data := Base58Bytes(first.data);
      var b := ToBytes(InstructionPayloads(others)) + rest;
      var a := ToBytes(data) + b;
      BytesAppend(first.accountIndexes, data + InstructionPayloads(others), rest);
      BytesAppend(data, InstructionPayloads(others), rest);
      BytesParsed(first.accountIndexes, a);
      Base58AreBytes(first.data);
      BytesParsed(data, b);
      PayloadsParsed(others, rest);
      PayloadsStep(HeadsOf(instructions), ToBytes(InstructionPayloads(instructions)) + rest, first, a, data, b,
                   others, rest);
      HeadTail(instructions);
    }
  }

  lemma FixedStages(bytes: seq<nat>, header: Header, a: seq<nat>, mask: nat, b: seq<nat>, blockhash: string,
                    c: seq<nat>, counts: seq<nat>, d: seq<nat>, keys: seq<string>, e: seq<nat>, config: Config, f: seq<nat>,
                    heads: seq<Head>, g: seq<nat>, instructions: seq<Instruction>, rest: seq<nat>)
    requires ParseHeader(bytes) == Got(header, a) && ParseLittleEndian(4, a) == Got(mask, b)
    requires ParseKey(b) == Got(blockhash, c) && ParseBytes(2, c) == Got(counts, d) && |counts| == 2
    requires ParseKeys(counts[1], d) == Got(keys, e)
    requires ParseConfig(mask % 4 == 3, mask / 16 % 2 == 1, e) == Got(config, f)
    requires ParseHeads(counts[0], f) == Got(heads, g) && ParsePayloads(heads, g) == Got(instructions, rest)
    ensures ParseFixed(bytes) == Got(Assemble(V1, Some(config), header, blockhash, keys, [], instructions), rest)
  {
  }

  lemma FixedBytes(m: Message, config: Config, a: seq<nat>, b: seq<nat>, c: seq<nat>, d: seq<nat>, e: seq<nat>,
                   f: seq<nat>, g: seq<nat>)
    requires m.transactionConfig == Some(config) && ValidConfig(config)
    requires g == ToBytes(InstructionPayloads(m.instructions))
    requires f == ToBytes(InstructionHeaders(m.instructions)) + g
    requires e == ToBytes(ConfigBytes(config)) + f
    requires d == ToBytes(KeyBytes(m.accountKeys)) + e
    requires c == ToBytes([|m.instructions|, |m.accountKeys|]) + d
    requires b == ToBytes(Base58Bytes(m.recentBlockhash)) + c
    requires a == ToBytes(LittleEndian(ConfigMask(config), 4)) + b
    ensures ToBytes(FixedBody(m)) == ToBytes(HeaderBytes(m.header)) + a
  {
    FixedLaidOut(m);
    var bodies := InstructionHeaders(m.instructions) + InstructionPayloads(m.instructions);
    var configured := ConfigBytes(config) + bodies;
    var keyed := KeyBytes(m.accountKeys) + configured;
    var counted := [|m.instructions|, |m.accountKeys|] + keyed;
    var hashed := Base58Bytes(m.recentBlockhash) + counted;
    var masked := LittleEndian(ConfigMask(config), 4) + hashed;
    AppendLast(InstructionHeaders(m.instructions), InstructionPayloads(m.instructions));
    AppendLast(ConfigBytes(config), bodies);
    AppendLast(KeyBytes(m.accountKeys), configured);
    AppendLast([|m.instructions|, |m.accountKeys|], keyed);
    AppendLast(Base58Bytes(m.recentBlockhash), counted);
    AppendLast(LittleEndian(ConfigMask(config), 4), hashed);
    AppendLast(HeaderBytes(m.header), masked);
  }

  /** The sections before the account keys. */
  lemma FixedFrontParsed(m: Message, config: Config, counts: seq<nat>, a: seq<nat>, b: seq<nat>, c: seq<nat>,
                         d: seq<nat>)
    requires ValidConfig(config) && IsPublicKey(m.recentBlockhash)
    requires AreBytes(counts) && |counts| == 2
    requires c == ToBytes(counts) + d && b == ToBytes(Base58Bytes(m.recentBlockhash)) + c
    requires a == ToBytes(LittleEndian(ConfigMask(config), 4)) + b
    ensures ParseHeader(ToBytes(HeaderBytes(m.header)) + a) == Got(WrappedHeader(m.header), a)
    ensures ParseLittleEndian(4, a) == Got(ConfigMask(config), b)
    ensures ParseKey(b) == Got(m.recentBlockhash, c)
    ensures ParseBytes(2, c) == Got(counts, d)
  {
    Pow256();
    HeaderParsed(m.header, a);
    LittleEndianParsed(ConfigMask(config), 4, b);
    KeyParsed(m.recentBlockhash, c);
    BytesParsed(counts, d);
  }

  /** The sections from the account keys on. */
  lemma FixedRearParsed(m: Message, config: Config, d: seq<nat>, e: seq<nat>, f: seq<nat>, g: seq<nat>)
    requires ValidConfig(config) && AllPublicKeys(m.accountKeys) && AllFixedEncodable(m.instructions)
    requires g == ToBytes(InstructionPayloads(m.instructions))
    requires f == ToBytes(InstructionHeaders(m.instructions)) + g
    requires e == ToBytes(ConfigBytes(config)) + f && d == ToBytes(KeyBytes(m.accountKeys)) + e
    ensures ParseKeys(|m.accountKeys|, d) == Got(m.accountKeys, e)
    ensures ParseConfig(ConfigMask(config) % 4 == 3, ConfigMask(config) / 16 % 2 == 1, e) == Got(config, f)
    ensures ParseHeads(|m.instructions|, f) == Got(HeadsOf(m.instructions), g)
    ensures ParsePayloads(HeadsOf(m.instructions), g) == Got(m.instructions, [])
  {
    KeysParsed(m.accountKeys, e);
    MaskBits(config);
    ConfigParsed(config, f);
    HeadsParsed(m.instructions, g);
    PayloadsParsed(m.instructions, []);
    assert g == ToBytes(InstructionPayloads(m.instructions)) + [];
  }

  lemma FixedPartsParsed(m: Message, config: Config)
    requires m.transactionConfig == Some(config) && ValidConfig(config)
    requires AllPublicKeys(m.accountKeys) && IsPublicKey(m.recentBlockhash) && AllFixedEncodable(m.instructions)
    requires |m.instructions| <= 64 && |m.accountKeys| <= 96
    ensures ParseFixed(ToBytes(FixedBody(m)))
         == Got(Assemble(V1, Some(config), WrappedHeader(m.header), m.recentBlockhash, m.accountKeys, [],
                         m.instructions), [])
  {
    var g := ToBytes(InstructionPayloads(m.instructions));
    var f := ToBytes(InstructionHeaders(m.instructions)) + g;
    var e := ToBytes(ConfigBytes(config)) + f;
    var d := ToBytes(KeyBytes(m.accountKeys)) + e;
    var counts := [|m.instructions|, |m.accountKeys|];
    var c := ToBytes(counts) + d;
    var b := ToBytes(Base58Bytes(m.recentBlockhash)) + c;
    var a := ToBytes(LittleEndian(ConfigMask(config), 4)) + b;
    FixedBytes(m, config, a, b, c, d, e, f, g);
    FixedFrontParsed(m, config, counts, a, b, c, d);
    FixedRearParsed(m, config, d, e, f, g);
    FixedStages(ToBytes(FixedBody(m)), WrappedHeader(m.header), a, ConfigMask(config), b, m.recentBlockhash, c,
                counts, d, m.accountKeys, e, config, f, HeadsOf(m.instructions), g, m.instructions, []);
  }

  lemma FixedParsed(m: Message)
    requires Accepted(m) && m.version.V1?
    ensures ParseFixed(ToBytes(FixedBody(m))) == Got(Unresolved(m).(header := WrappedHeader(m.header)), [])
  {
    InstructionsEncodable(m);
    forall i | 0 <= i < |m.instructions| ensures FixedEncodable(m.instructions[i]) {
      assert ValidInstruction(m.instructions[i], AccountCount(m), m.version);
    }
    assert m.addressTableLookups == [];
    FixedPartsParsed(m, m.transactionConfig.value);
  }

  // ---------- What the bytes determine ----------

  /** Reads a whole message: the top bit of the first byte announces a version byte. */
  ghost function ParseMessage(bytes: seq<nat>): Option<Message> {
    if bytes == [] then None
    else
      match (if bytes[0] < 0x80 then ParseCompact(Legacy, bytes)
             else if bytes[0] == 0x80 then ParseCompact(V0, bytes[1..])
             else if bytes[0] == 0x81 then ParseFixed(bytes[1..])
             else Fail)
      case Fail => None
      case Got(m, rest) => if rest == [] then Some(m) else None
  }

  /** The bytes that are hashed and signed. */
  ghost function MessageBytes(m: Message): seq<nat>
    requires Accepted(m)
  {
    ToBytes(MessageNumbers(m))
  }

  /** The header counts are such that one byte each, and the version bit, hold them. */
  predicate HeaderFits(m: Message) {
    && m.header.numRequiredSignatures <= (if m.version.Legacy? then 127 else 255)
    && m.header.numReadonlySignedAccounts >= 0
    && m.header.numReadonlyUnsignedAccounts >= 0
  }

  lemma VersionByte(m: Message, prefix: int, body: seq<int>)
    requires 0 <= prefix < 256
    ensures ToBytes([prefix] + body)[0] == prefix && ToBytes([prefix] + body)[1..] == ToBytes(body)
  {
  }

  lemma LegacyFirstByte(m: Message)
    requires Accepted(m) && m.version.Legacy?
    ensures MessageBytes(m) != [] && MessageBytes(m)[0] == m.header.numRequiredSignatures % 256
  {
  }

  lemma OnlyLegacyIsLegacy(bytes: seq<nat>)
    requires bytes != [] && bytes[0] >= 0x80
    ensures ParseMessage(bytes).Some? ==> !ParseMessage(bytes).value.version.Legacy?
  {
  }

  lemma ByteKeeps(n: int)
    requires n < 256
    ensures n % 256 == n <==> n >= 0
  {
  }

  lemma WrappedHeaderFits(header: Header, keys: nat)
    requires ConsistentHeader(header, keys) && keys <= 256
    ensures WrappedHeader(header) == header
       <==> && header.numRequiredSignatures <= 255
            && header.numReadonlySignedAccounts >= 0
            && header.numReadonlyUnsignedAccounts >= 0
  {
    if header.numRequiredSignatures < 256 {
      ByteKeeps(header.numRequiredSignatures);
    }
    ByteKeeps(header.numReadonlySignedAccounts);
    ByteKeeps(header.numReadonlyUnsignedAccounts);
  }

  lemma LegacyDetermined(m: Message)
    requires Accepted(m) && m.version.Legacy?
    ensures ParseMessage(MessageBytes(m)) == Some(Unresolved(m)) <==> HeaderFits(m)
  {
    LegacyFirstByte(m);
    CompactParsed(m);
    WrappedHeaderFits(m.header, |m.accountKeys|);
    if MessageBytes(m)[0] >= 0x80 {
      OnlyLegacyIsLegacy(MessageBytes(m));
    }
  }

  lemma VersionedDetermined(m: Message)
    requires Accepted(m) && !m.version.Legacy?
    ensures ParseMessage(MessageBytes(m)) == Some(Unresolved(m)) <==> HeaderFits(m)
  {
    WrappedHeaderFits(m.header, |m.accountKeys|);
    if m.version.V0? {
      VersionByte(m, 0x80, CompactBody(m));
      CompactParsed(m);
    } else {
      VersionByte(m, 0x81, FixedBody(m));
      FixedParsed(m);
    }
  }

  /** The parser recovers an accepted message, up to what its lookups resolve to, exactly when its
      header counts fit their bytes. */
  lemma BytesDetermineMessage(m: Message)
    requires Accepted(m)
    ensures ParseMessage(MessageBytes(m)) == Some(Unresolved(m)) <==> HeaderFits(m)
  {
    if m.version.Legacy? {
      LegacyDetermined(m);
    } else {
      VersionedDetermined(m);
    }
  }

  // ---------- The code that accepts and encodes ----------

  lemma Nested3(a: seq<int>, b: seq<int>, c: seq<int>)
    ensures a + b + c == a + (b + c)
  {
  }

  lemma Nested4(a: seq<int>, b: seq<int>, c: seq<int>, d: seq<int>)
    ensures a + b + c + d == a + (b + (c + d))
    ensures a + (b + c) + d == a + (b + (c + d))
  {
    Nested3(a, b, c + d);
    Nested3(a + b, c, d);
    Nested3(a, b, c);
  }

  lemma Nested5(a: seq<int>, b: seq<int>, c: seq<int>, d: seq<int>, e: seq<int>)
    ensures a + b + c + d + e == a + (b + (c + (d + e)))
    ensures a + b + c + d + e == a + ((b + c) + (d + e))
  {
    Nested4(a, b, c, d + e);
    Nested3(a + b + c, d, e);
    Nested3(b, c, d + e);
  }

  lemma TakeNext<T>(s: seq<T>, i: nat)
    requires i < |s|
    ensures s[..i + 1] == s[..i] + [s[i]]
  {
  }

  method AssertPublicKeys(keys: seq<string>) returns (ok: bool)
    ensures ok == AllPublicKeys(keys)
  {
    for i := 0 to |keys|
      invariant AllPublicKeys(keys[..i])
    {
      var valid := AssertPublicKey(keys[i]);
      if !valid {
        return false;
      }
      TakeNext(keys, i);
    }
    assert keys[..|keys|] == keys;
    ok := true;
  }

  lemma {:induction false} CountsSnoc(lookups: seq<Lookup>, lookup: Lookup)
    ensures WritableCount(lookups + [lookup]) == WritableCount(lookups) + |lookup.writableIndexes|
    ensures ReadonlyCount(lookups + [lookup]) == ReadonlyCount(lookups) + |lookup.readonlyIndexes|
  {
    if lookups == [] {
      assert [] + [lookup] == [lookup];
    } else {
      assert (lookups + [lookup])[1..] == lookups[1..] + [lookup];
      CountsSnoc(lookups[1..], lookup);
    }
  }

  /** Checks the lookups and counts the addresses they must resolve to. */
  method CheckLookups(lookups: seq<Lookup>) returns (counts: Option<(nat, nat)>)
    ensures counts.Some? <==> forall i :: 0 <= i < |lookups| ==> ValidLookup(lookups[i])
    ensures counts.Some? ==> counts.value == (WritableCount(lookups), ReadonlyCount(lookups))
  {
    var writable, readonly := 0, 0;
    for i := 0 to |lookups|
      invariant forall j :: 0 <= j < i ==> ValidLookup(lookups[j])
      invariant (writable, readonly) == (WritableCount(lookups[..i]), ReadonlyCount(lookups[..i]))
    {
      var lookup := lookups[i];
      var key := AssertPublicKey(lookup.accountKey);
      if !key || !ValidIndexes(lookup.writableIndexes) || !ValidIndexes(lookup.readonlyIndexes) {
        assert !ValidLookup(lookups[i]);
        return None;
      }
      TakeNext(lookups, i);
      CountsSnoc(lookups[..i], lookup);
      writable := writable + |lookup.writableIndexes|;
      readonly := readonly + |lookup.readonlyIndexes|;
    }
    assert lookups[..|lookups|] == lookups;
    counts := Some((writable, readonly));
  }

  /** Whether normalisation returns, rather than throws; what it returns is a copy of its argument. */
  method NormalizeMessage(m: Message) returns (ok: bool)
    ensures ok == Accepted(m)
  {
    if !m.mainnet {
      return false;
    }
    if m.version.V1? {
      if m.transactionConfig.None? || !ValidConfig(m.transactionConfig.value) {
        return false;
      }
    } else if m.transactionConfig.Some? {
      return false;
    }
    var feePayer := AssertPublicKey(m.feePayer);
    var blockhash := AssertPublicKey(m.recentBlockhash);
    if !feePayer || !blockhash || |m.accountKeys| < 1 || |m.accountKeys| > 256 {
      return false;
    }
    if m.version.V1? && |m.accountKeys| > 96 {
      return false;
    }
    var keys := AssertPublicKeys(m.accountKeys);
    if !keys || m.accountKeys[0] != m.feePayer || !AllDifferent(m.accountKeys)
       || !ConsistentHeader(m.header, |m.accountKeys|) {
      return false;
    }
    if |m.addressTableLookups| > 32 || (!m.version.V0? && |m.addressTableLookups| != 0) {
      return false;
    }
    var counts := CheckLookups(m.addressTableLookups);
    if counts.None? || |m.loadedAddresses.writable| != counts.value.0
       || |m.loadedAddresses.readonly| != counts.value.1 {
      return false;
    }
    if m.version.V1? && (|m.loadedAddresses.writable| != 0 || |m.loadedAddresses.readonly| != 0
                         || m.transactionConfig.value.computeUnitLimit.value == 0
                         || m.transactionConfig.value.loadedAccountsDataSizeLimit.value == 0) {
      assert m.version.V1? && m.addressTableLookups == [];
      return false;
    }
    var writable := AssertPublicKeys(m.loadedAddresses.writable);
    var readonly := AssertPublicKeys(m.loadedAddresses.readonly);
    var accounts := |m.accountKeys| + |m.loadedAddresses.writable| + |m.loadedAddresses.readonly|;
    if !writable || !readonly || accounts > 256 || |m.instructions| < 1 || |m.instructions| > 128 {
      return false;
    }
    if m.version.V1? && |m.instructions| > 64 {
      return false;
    }
    for i := 0 to |m.instructions|
      invariant forall j :: 0 <= j < i ==> ValidInstruction(m.instructions[j], accounts, m.version)
    {
      if !ValidInstruction(m.instructions[i], accounts, m.version) {
        return false;
      }
    }
    ok := true;
  }

  method DecodeKnownBase58(value: string) returns (bytes: seq<int>)
    requires Base58.IsBase58(value)
    ensures bytes == Base58Bytes(value)
  {
    var decoded := Base58.DecodeBase58Bytes(value);
    bytes := decoded.value;
  }

  lemma {:induction false} KeyBytesSnoc(keys: seq<string>, key: string)
    ensures KeyBytes(keys + [key]) == KeyBytes(keys) + Base58Bytes(key)
  {
    if keys == [] {
      assert [] + [key] == [key];
    } else {
      assert (keys + [key])[1..] == keys[1..] + [key];
      KeyBytesSnoc(keys[1..], key);
    }
  }

  method EncodeKeys(keys: seq<string>) returns (bytes: seq<int>)
    requires AllPublicKeys(keys)
    ensures bytes == KeyBytes(keys)
  {
    bytes := [];
    for i := 0 to |keys|
      invariant bytes == KeyBytes(keys[..i])
    {
      assert IsPublicKey(keys[i]);
      var key := DecodeKnownBase58(keys[i]);
      TakeNext(keys, i);
      KeyBytesSnoc(keys[..i], keys[i]);
      bytes := bytes + key;
    }
    assert keys[..|keys|] == keys;
  }

  lemma {:induction false} InstructionsBytesSnoc(instructions: seq<Instruction>, x: Instruction)
    ensures InstructionsBytes(instructions + [x]) == InstructionsBytes(instructions) + InstructionBytes(x)
  {
    if instructions == [] {
      assert [] + [x] == [x];
    } else {
      assert (instructions + [x])[1..] == instructions[1..] + [x];
      InstructionsBytesSnoc(instructions[1..], x);
      Nested3(InstructionBytes(instructions[0]), InstructionsBytes(instructions[1..]), InstructionBytes(x));
    }
  }

  lemma {:induction false} InstructionHeadersSnoc(instructions: seq<Instruction>, x: Instruction)
    ensures InstructionHeaders(instructions + [x]) == InstructionHeaders(instructions) + InstructionHeader(x)
  {
    if instructions == [] {
      assert [] + [x] == [x];
    } else {
      assert (instructions + [x])[1..] == instructions[1..] + [x];
      InstructionHeadersSnoc(instructions[1..], x);
      Nested3(InstructionHeader(instructions[0]), InstructionHeaders(instructions[1..]), InstructionHeader(x));
    }
  }

  lemma {:induction false} InstructionPayloadsSnoc(instructions: seq<Instruction>, x: Instruction)
    ensures InstructionPayloads(instructions + [x]) == InstructionPayloads(instructions) + (x.accountIndexes + Base58Bytes(x.data))
  {
    if instructions == [] {
      assert [] + [x] == [x];
    } else {
      assert (instructions + [x])[1..] == instructions[1..] + [x];
      InstructionPayloadsSnoc(instructions[1..], x);
      Nested4(instructions[0].accountIndexes, Base58Bytes(instructions[0].data), InstructionPayloads(instructions[1..]),
              x.accountIndexes + Base58Bytes(x.data));
    }
  }

  /** The instruction section of a legacy or v0 message. */
  method EncodeInstructions(instructions: seq<Instruction>) returns (bytes: seq<int>)
    requires AllEncodable(instructions)
    requires forall i :: 0 <= i < |instructions| ==>
      |instructions[i].accountIndexes| <= 256 && |instructions[i].data| <= 8192
    ensures bytes == InstructionsBytes(instructions)
  {
    bytes := [];
    for i := 0 to |instructions|
      invariant bytes == InstructionsBytes(instructions[..i])
    {
      var instruction := instructions[i];
      assert Encodable(instruction);
      var data := DecodeKnownBase58(instruction.data);
      Base58.DecodedLength(instruction.data);
      var accountCount := ShortVector(|instruction.accountIndexes|);
      var dataLength := ShortVector(|data|);
      TakeNext(instructions, i);
      InstructionsBytesSnoc(instructions[..i], instruction);
      var pushed := [instruction.programIdIndex] + accountCount.value + instruction.accountIndexes + dataLength.value + data;
      Nested5([instruction.programIdIndex], accountCount.value, instruction.accountIndexes, dataLength.value, data);
      bytes := bytes + pushed;
    }
    assert instructions[..|instructions|] == instructions;
  }

  lemma {:induction false} LookupsBytesSnoc(lookups: seq<Lookup>, x: Lookup)
    ensures LookupsBytes(lookups + [x]) == LookupsBytes(lookups) + LookupBytes(x)
  {
    if lookups == [] {
      assert [] + [x] == [x];
    } else {
      assert (lookups + [x])[1..] == lookups[1..] + [x];
      LookupsBytesSnoc(lookups[1..], x);
    }
  }

  method EncodeLookups(lookups: seq<Lookup>) returns (bytes: seq<int>)
    requires forall i :: 0 <= i < |lookups| ==> ValidLookup(lookups[i])
    ensures bytes == LookupsBytes(lookups)
  {
    bytes := [];
    for i := 0 to |lookups|
      invariant bytes == LookupsBytes(lookups[..i])
    {
      var lookup := lookups[i];
      assert ValidLookup(lookup);
      var key := DecodeKnownBase58(lookup.accountKey);
      var writable := ShortVector(|lookup.writableIndexes|);
      var readonly := ShortVector(|lookup.readonlyIndexes|);
      TakeNext(lookups, i);
      LookupsBytesSnoc(lookups[..i], lookup);
      var pushed := key + writable.value + lookup.writableIndexes + readonly.value + lookup.readonlyIndexes;
      Nested5(key, writable.value, lookup.writableIndexes, readonly.value, lookup.readonlyIndexes);
      bytes := bytes + pushed;
    }
    assert lookups[..|lookups|] == lookups;
  }

  /** The two instruction sections of a v1 message. */
  method EncodeFixedInstructions(instructions: seq<Instruction>) returns (headers: seq<int>, payloads: seq<int>)
    requires AllEncodable(instructions)
    ensures headers == InstructionHeaders(instructions)
    ensures payloads == InstructionPayloads(instructions)
  {
    headers, payloads := [], [];
    for i := 0 to |instructions|
      invariant headers == InstructionHeaders(instructions[..i])
      invariant payloads == InstructionPayloads(instructions[..i])
    {
      var instruction := instructions[i];
      assert Encodable(instruction);
      var data := DecodeKnownBase58(instruction.data);
      TakeNext(instructions, i);
      InstructionHeadersSnoc(instructions[..i], instruction);
      InstructionPayloadsSnoc(instructions[..i], instruction);
      headers := headers + [instruction.programIdIndex, |instruction.accountIndexes|, |data| % 0x100, |data| / 0x100];
      payloads := payloads + (instruction.accountIndexes + data);
    }
    assert instructions[..|instructions|] == instructions;
  }

  /** The configured limits of a v1 message, and the mask that says which are present. */
  method EncodeConfig(config: Config) returns (mask: nat, values: seq<int>)
    requires ValidConfig(config)
    ensures mask == ConfigMask(config) && values == ConfigBytes(config)
  {
    mask, values := 0, [];
    if config.priorityFeeLamports.Some? {
      mask := mask + 0x3;
      var fee := Uint64LittleEndian(Decimals.ToNat(config.priorityFeeLamports.value));
      values := values + fee.value;
    }
    ghost var fees, heap := OptionalBytes(FeeOf(config), 8), OptionalBytes(config.heapSize, 4);
    assert values == fees;
    mask := mask + 0x4 + 0x8;
    var units := Uint32LittleEndian(config.computeUnitLimit.value).value;
    var loaded := Uint32LittleEndian(config.loadedAccountsDataSizeLimit.value).value;
    values := values + units + loaded;
    ghost var required := values;
    if config.heapSize.Some? {
      mask := mask + 0x10;
      values := values + Uint32LittleEndian(config.heapSize.value).value;
    }
    assert values == required + heap;
    Nested4(fees, units, loaded, heap);
  }

  method EncodeFixed(m: Message) returns (numbers: seq<int>)
    requires Accepted(m) && m.version.V1?
    ensures numbers == FixedBody(m)
  {
    InstructionsEncodable(m);
    var blockhash := DecodeKnownBase58(m.recentBlockhash);
    var keys := EncodeKeys(m.accountKeys);
    var mask, configValues := EncodeConfig(m.transactionConfig.value);
    var headers, payloads := EncodeFixedInstructions(m.instructions);
    MaskBits(m.transactionConfig.value);
    var maskBytes := Uint32LittleEndian(mask);
    var header := [m.header.numRequiredSignatures, m.header.numReadonlySignedAccounts,
                   m.header.numReadonlyUnsignedAccounts];
    var sizes := [|m.instructions|, |m.accountKeys|];
    numbers := header + maskBytes.value + blockhash + sizes + keys + configValues + headers + payloads;
    FixedLaidOut(m);
    Nested5(header + maskBytes.value + blockhash + sizes, keys, configValues, headers, payloads);
    Nested5(header, maskBytes.value, blockhash, sizes, keys + (configValues + (headers + payloads)));
  }

  method EncodeCompact(m: Message) returns (numbers: seq<int>)
    requires Accepted(m) && !m.version.V1?
    ensures numbers == CompactBody(m)
  {
    InstructionsEncodable(m);
    var blockhash := DecodeKnownBase58(m.recentBlockhash);
    var keys := EncodeKeys(m.accountKeys);
    var keyCount := ShortVector(|m.accountKeys|);
    var count := ShortVector(|m.instructions|);
    forall i | 0 <= i < |m.instructions|
      ensures |m.instructions[i].accountIndexes| <= 256 && |m.instructions[i].data| <= 8192
    {
      assert ValidInstruction(m.instructions[i], AccountCount(m), m.version);
    }
    var instructions := EncodeInstructions(m.instructions);
    var lookups := [];
    if m.version.V0? {
      var lookupCount := ShortVector(|m.addressTableLookups|);
      var bodies := EncodeLookups(m.addressTableLookups);
      lookups := lookupCount.value + bodies;
    }
    assert lookups == LookupSection(m);
    var header := [m.header.numRequiredSignatures, m.header.numReadonlySignedAccounts,
                   m.header.numReadonlyUnsignedAccounts];
    numbers := header + keyCount.value + keys + blockhash + count.value + instructions + lookups;
    CompactLaidOut(m);
    Nested5(header + keyCount.value + keys, blockhash, count.value, instructions, lookups);
    Nested4(header, keyCount.value, keys, blockhash + (count.value + (instructions + lookups)));
  }

  /** The message bytes that are hashed and signed; None where the SDK throws. */
  method EncodeSolanaTransactionMessageBytes(m: Message) returns (bytes: Option<seq<nat>>)
    ensures bytes.Some? <==> Accepted(m)
    ensures Accepted(m) ==> bytes.value == MessageBytes(m)
  {
    var accepted := NormalizeMessage(m);
    if !accepted {
      return None;
    }
    var numbers;
    match m.version {
      case Legacy =>
        numbers := EncodeCompact(m);
      case V0 =>
        numbers := EncodeCompact(m);
        numbers := [0x80] + numbers;
      case V1 =>
        numbers := EncodeFixed(m);
        numbers := [0x81] + numbers;
    }
    bytes := Some(ToBytes(numbers));
  }
}
