/** The dynamic-section parser of RoModule::Initialize: walks the (tag, value)
    pairs that start at the module's dynamic pointer and dispatches each tag
    into the module object's slots. */
module Dynamic {
  import opened Words
  import opened Faults
  import opened Elf
  import opened Memory
  import opened Layout

  /** One dynamic entry: an 8-byte tag and an 8-byte value. */
  datatype Entry = Entry(tag: u64, value: u64)

  /** Tags whose value is an address relative to the module base. DT_REL and
      DT_RELA share one slot. */
  const ADDRESS_TAGS: map<int, Offset> := map[
    DT_JMPREL := JMPREL, DT_RELA := REL_OR_RELA, DT_REL := REL_OR_RELA,
    DT_INIT := INIT, DT_FINI := FINI, DT_STRTAB := STRTAB,
    DT_SYMTAB := SYMTAB, DT_PLTGOT := PLTGOT]

  /** Tags whose value is stored verbatim. */
  const SCALAR_TAGS: map<int, Offset> := map[
    DT_PLTRELSZ := PLTRELSZ, DT_RELASZ := RELASZ, DT_STRSZ := STRSZ,
    DT_RELSZ := RELSZ, DT_RELACOUNT := RELA_COUNT, DT_RELCOUNT := REL_COUNT]

  const HASH_SLOTS: set<Offset> := {HASH_BUCKET, HASH_CHAIN, HASH_NCHAIN, HASH_NBUCKET}

  /** The slots an entry with this tag may write. */
  function Writes(tag: int): set<Offset> {
    if tag in ADDRESS_TAGS then {ADDRESS_TAGS[tag]}
    else if tag in SCALAR_TAGS then {SCALAR_TAGS[tag]}
    else if tag == DT_PLTREL then {IS_RELA_PLT}
    else if tag == DT_HASH then HASH_SLOTS
    else {}
  }

  /** No tag touches the links, the base or the dynamic pointer. */
  lemma HeaderNeverWritten(tag: int)
    ensures PREV !in Writes(tag) && NEXT !in Writes(tag)
    ensures BASE !in Writes(tag) && DYNAMIC !in Writes(tag)
  {
  }

  /** A scalar slot, is_rela_plt and the hash slots each have one writer. */
  lemma SingleWriter(tag: int, other: int)
    ensures other in SCALAR_TAGS && SCALAR_TAGS[other] in Writes(tag) ==> tag == other
    ensures IS_RELA_PLT in Writes(tag) ==> tag == DT_PLTREL
    ensures HASH_SLOTS * Writes(tag) != {} ==> tag == DT_HASH
  {
  }

  /** The four hash slots of a module object. */
  datatype HashInfo = HashInfo(nbucket: u64, nchain: u64, bucket: u64, chain: u64)

  function StoredHash(r: Slots): HashInfo {
    HashInfo(Field(r, HASH_NBUCKET), Field(r, HASH_NCHAIN), Field(r, HASH_BUCKET), Field(r, HASH_CHAIN))
  }

  /** What the SysV hash table at `table` puts in the hash slots: nbucket and
      nchain from its header, the first bucket just after the header, the
      first chain slot nbucket 4-byte words after that. None when the header
      cannot be read. */
  function TableHash(m: seq<byte>, table: int): Option<HashInfo> {
    match (Load32(m, table), Load32(m, table + 4))
    case (Some(nbucket), Some(nchain)) =>
      var bucket := Wrap64(table + 8);
      Some(HashInfo(nbucket, nchain, bucket, Wrap64(bucket + (nbucket as int) * 4)))
    case _ => None
  }

  /** The object with its four hash slots set from `h`. */
  function WithHash(s: Slots, h: HashInfo): (r: Slots)
    ensures StoredHash(r) == h
    ensures forall o: Offset :: o !in HASH_SLOTS ==> Field(r, o) == Field(s, o)
  {
    WithField(WithField(WithField(WithField(s, HASH_NCHAIN, h.nchain), HASH_NBUCKET, h.nbucket), HASH_BUCKET, h.bucket),
      HASH_CHAIN, h.chain)
  }

  /** The entries the loader does not halt on; the SysV hash header is two
      4-byte words at base + value. */
  ghost predicate Accepted(m: seq<byte>, base: u64, e: Entry) {
    && (e.tag == DT_PLTREL ==> e.value == DT_REL || e.value == DT_RELA)
    && (e.tag == DT_RELENT ==> e.value == REL_ENTRY_SIZE)
    && (e.tag == DT_SYMENT ==> e.value == SYM_ENTRY_SIZE)
    && (e.tag == DT_RELAENT ==> e.value == RELA_ENTRY_SIZE)
    && (e.tag == DT_HASH ==> Mapped(m, Wrap64(base + e.value), 8))
  }

  /** Dispatches one entry. The module base is the one the object holds. */
  function ApplyEntry(s: Slots, m: seq<byte>, e: Entry): Result<Slots> {
    var base := Field(s, BASE);
    if e.tag in ADDRESS_TAGS then Ok(WithField(s, ADDRESS_TAGS[e.tag], Wrap64(base + e.value)))
    else if e.tag in SCALAR_TAGS then Ok(WithField(s, SCALAR_TAGS[e.tag], e.value))
    else if e.tag == DT_PLTREL then
      if e.value == DT_RELA then Ok(WithField(s, IS_RELA_PLT, 1))
      else if e.value == DT_REL then Ok(WithField(s, IS_RELA_PLT, 0))
      else Fatal(BadPltRel(e.value))
    else if e.tag == DT_RELENT then
      if e.value == REL_ENTRY_SIZE then Ok(s) else Fatal(BadEntrySize(e.tag, e.value))
    else if e.tag == DT_SYMENT then
      if e.value == SYM_ENTRY_SIZE then Ok(s) else Fatal(BadEntrySize(e.tag, e.value))
    else if e.tag == DT_RELAENT then
      if e.value == RELA_ENTRY_SIZE then Ok(s) else Fatal(BadEntrySize(e.tag, e.value))
    else if e.tag == DT_HASH then
      match TableHash(m, Wrap64(base + e.value))
      case Some(h) => Ok(WithHash(s, h))
      case None => Fatal(Unmapped)
    else Ok(s)
  }

  /** An entry is dispatched without a halt exactly when it passes the
      loader's checks, and a dispatched entry changes only the slots its tag
      may write. */
  lemma ApplyEntryAccepts(s: Slots, m: seq<byte>, e: Entry)
    ensures ApplyEntry(s, m, e).Ok? <==> Accepted(m, Field(s, BASE), e)
    ensures ApplyEntry(s, m, e).Ok? ==>
      forall o: Offset :: o !in Writes(e.tag) ==> Field(ApplyEntry(s, m, e).value, o) == Field(s, o)
  {
  }

  /** Dispatch of a scalar tag: the value verbatim into the tag's slot. */
  lemma DispatchScalarTag(s: Slots, m: seq<byte>, e: Entry)
    requires e.tag in SCALAR_TAGS
    ensures ApplyEntry(s, m, e) == Ok(WithField(s, SCALAR_TAGS[e.tag], e.value))
  {
    assert e.tag !in ADDRESS_TAGS;
  }

  /** The dispatch table with tag numbers and slot offsets written out: each
      address tag stores base + value, read from slot 0x20, at its offset. */
  lemma AddressTagOffsets(s: Slots, m: seq<byte>, v: u64)
    ensures ApplyEntry(s, m, Entry(23, v)) == Ok(s[0x10 / 8 := Wrap64(s[0x20 / 8] + v)])
    ensures ApplyEntry(s, m, Entry(7, v)) == Ok(s[0x18 / 8 := Wrap64(s[0x20 / 8] + v)])
    ensures ApplyEntry(s, m, Entry(17, v)) == Ok(s[0x18 / 8 := Wrap64(s[0x20 / 8] + v)])
    ensures ApplyEntry(s, m, Entry(12, v)) == Ok(s[0x40 / 8 := Wrap64(s[0x20 / 8] + v)])
    ensures ApplyEntry(s, m, Entry(13, v)) == Ok(s[0x48 / 8 := Wrap64(s[0x20 / 8] + v)])
    ensures ApplyEntry(s, m, Entry(5, v)) == Ok(s[0x60 / 8 := Wrap64(s[0x20 / 8] + v)])
    ensures ApplyEntry(s, m, Entry(6, v)) == Ok(s[0x68 / 8 := Wrap64(s[0x20 / 8] + v)])
    ensures ApplyEntry(s, m, Entry(3, v)) == Ok(s[0x78 / 8 := Wrap64(s[0x20 / 8] + v)])
  {
  }

  /** The same for the value tags, stored verbatim, and for DT_PLTREL's flag
      at 0x30. */
  lemma ScalarTagOffsets(s: Slots, m: seq<byte>, v: u64)
    ensures ApplyEntry(s, m, Entry(2, v)) == Ok(s[0x38 / 8 := v])
    ensures ApplyEntry(s, m, Entry(8, v)) == Ok(s[0x80 / 8 := v])
    ensures ApplyEntry(s, m, Entry(10, v)) == Ok(s[0x70 / 8 := v])
    ensures ApplyEntry(s, m, Entry(18, v)) == Ok(s[0x88 / 8 := v])
    ensures ApplyEntry(s, m, Entry(0x6fff_fff9, v)) == Ok(s[0x98 / 8 := v])
    ensures ApplyEntry(s, m, Entry(0x6fff_fffa, v)) == Ok(s[0x90 / 8 := v])
    ensures ApplyEntry(s, m, Entry(20, 7)) == Ok(s[0x30 / 8 := 1])
    ensures ApplyEntry(s, m, Entry(20, 17)) == Ok(s[0x30 / 8 := 0])
  {
  }

  /** DT_PLTREL stores 1 for DT_RELA and 0 for DT_REL and halts on any other value;
      a wrong DT_RELENT, DT_SYMENT or DT_RELAENT halts, a right one changes nothing. */
  lemma DispatchChecks(s: Slots, m: seq<byte>, e: Entry)
    ensures e.tag == DT_PLTREL ==>
      ApplyEntry(s, m, e) ==
        if e.value == DT_RELA then Ok(WithField(s, IS_RELA_PLT, 1))
        else if e.value == DT_REL then Ok(WithField(s, IS_RELA_PLT, 0))
        else Fatal(BadPltRel(e.value))
    ensures e.tag == DT_RELENT ==>
      ApplyEntry(s, m, e) == if e.value == 16 then Ok(s) else Fatal(BadEntrySize(DT_RELENT, e.value))
    ensures e.tag == DT_SYMENT || e.tag == DT_RELAENT ==>
      ApplyEntry(s, m, e) == if e.value == 24 then Ok(s) else Fatal(BadEntrySize(e.tag, e.value))
  {
  }

  /** A tag the loader does not know is skipped. */
  lemma DispatchUnknownTag(s: Slots, m: seq<byte>, e: Entry)
    requires e.tag !in ADDRESS_TAGS && e.tag !in SCALAR_TAGS
    requires e.tag !in {DT_PLTREL, DT_RELENT, DT_SYMENT, DT_RELAENT, DT_HASH}
    ensures ApplyEntry(s, m, e) == Ok(s)
  {
  }

  /** Dispatch of DT_HASH (tag 4): with header words [nbucket, nchain] at
      base + value, the object holds nbucket, nchain, the first bucket at
      base + value + 8 and the first chain slot nbucket * 4 bytes after it; no
      other slot changes. */
  lemma DispatchHash(s: Slots, m: seq<byte>, e: Entry, after: Slots)
    requires e.tag == 4 && ApplyEntry(s, m, e) == Ok(after)
    ensures HashStored(after, m, Wrap64(Field(s, 0x20) + e.value))
    ensures forall o: Offset :: o !in {0x50, 0x58, 0xa0, 0xa8} ==> Field(after, o) == Field(s, o)
  {
    assert e.tag !in ADDRESS_TAGS && e.tag !in SCALAR_TAGS;
  }

  /** The hash slots of `r` describe the SysV hash table at `table`, with the
      offsets written out: the first header word is nbucket at +0xa8, the
      second nchain at +0xa0, the first bucket (+0x50) follows the 8-byte
      header and the first chain slot (+0x58) lies nbucket 4-byte words after
      the first bucket. */
  ghost predicate HashStored(r: Slots, m: seq<byte>, table: int) {
    && Load32(m, table).Some? && Field(r, 0xa8) == Load32(m, table).value
    && Load32(m, table + 4).Some? && Field(r, 0xa0) == Load32(m, table + 4).value
    && Field(r, 0x50) == Wrap64(table + 8)
    && Field(r, 0x58) == Wrap64(Field(r, 0x50) + Field(r, 0xa8) * 4)
  }

  /** Applies a list of entries in order; the first rejected entry halts. */
  function ApplyAll(s: Slots, m: seq<byte>, es: seq<Entry>): (r: Result<Slots>)
    ensures r.Ok? <==> forall i :: 0 <= i < |es| ==> Accepted(m, Field(s, BASE), es[i])
    ensures r.Ok? ==> forall o: Offset ::
      (forall i :: 0 <= i < |es| ==> o !in Writes(es[i].tag)) ==> Field(r.value, o) == Field(s, o)
    decreases |es|
  {
    if es == [] then Ok(s)
    else
      ApplyEntryAccepts(s, m, es[0]);
      match ApplyEntry(s, m, es[0])
      case Fatal(f) => Fatal(f)
      case Ok(t) =>
        HeaderNeverWritten(es[0].tag);
        ApplyAll(t, m, es[1..])
  }

  /** The entries from `p` up to the null tag, if the section is terminated
      inside mapped memory. */
  function Entries(m: seq<byte>, p: int): (r: Option<seq<Entry>>)
    decreases |m| - p
  {
    match Load64(m, p)
    case None => None
    case Some(tag) =>
      if tag == DT_NULL then Some([])
      else
        match Load64(m, p + 8)
        case None => None
        case Some(value) =>
          match Entries(m, p + 16)
          case None => None
          case Some(rest) => Some([Entry(tag, value)] + rest)
  }

  /** The parser as the loader runs it: read a tag, stop at the null tag,
      read the value, dispatch, advance 16 bytes. */
  function ParseFrom(s: Slots, m: seq<byte>, p: int): (r: Result<Slots>)
    decreases |m| - p
  {
    match Load64(m, p)
    case None => Fatal(Unmapped)
    case Some(tag) =>
      if tag == DT_NULL then Ok(s)
      else
        match Load64(m, p + 8)
        case None => Fatal(Unmapped)
        case Some(value) =>
          match ApplyEntry(s, m, Entry(tag, value))
          case Fatal(f) => Fatal(f)
          case Ok(t) => ParseFrom(t, m, p + 16)
  }

  /** `es` lies at `p` as 16-byte (tag, value) records, none of them with the
      null tag, and a null tag follows the last one. */
  ghost predicate Records(m: seq<byte>, p: int, es: seq<Entry>) {
    && (forall k :: 0 <= k < |es| ==>
          && Load64(m, p + 16 * k) == Some(es[k].tag) && es[k].tag != DT_NULL
          && Load64(m, p + 16 * k + 8) == Some(es[k].value))
    && Load64(m, p + 16 * |es|) == Some(DT_NULL as u64)
  }

  /** The entries the walk lists are exactly the records laid out from `p`
      up to the first null tag. */
  lemma EntriesRecords(m: seq<byte>, p: int, es: seq<Entry>)
    ensures Entries(m, p) == Some(es) <==> Records(m, p, es)
  {
    if Entries(m, p) == Some(es) {
      EntriesAreRecords(m, p, es);
    }
    if Records(m, p, es) {
      RecordsAreEntries(m, p, es);
    }
  }

  lemma {:induction false} EntriesAreRecords(m: seq<byte>, p: int, es: seq<Entry>)
    requires Entries(m, p) == Some(es)
    ensures Records(m, p, es)
    decreases |es|
  {
    hide Load64;
    if es != [] {
      var tag, value := Load64(m, p).value, Load64(m, p + 8).value;
      assert es[0] == Entry(tag, value) && tag != DT_NULL;
      EntriesAreRecords(m, p + 16, es[1..]);
      forall k | 0 <= k < |es|
        ensures Load64(m, p + 16 * k) == Some(es[k].tag) && es[k].tag != DT_NULL
        ensures Load64(m, p + 16 * k + 8) == Some(es[k].value)
      {
        if k > 0 {
          assert p + 16 * k == p + 16 + 16 * (k - 1);
          assert es[k] == es[1..][k - 1];
        }
      }
      assert p + 16 * |es| == p + 16 + 16 * |es[1..]|;
    }
  }

  lemma {:induction false} RecordsAreEntries(m: seq<byte>, p: int, es: seq<Entry>)
    requires Records(m, p, es)
    ensures Entries(m, p) == Some(es)
    decreases |es|
  {
    hide Load64, Records;
    RecordsSplit(m, p, es);
    if es != [] {
      RecordsAreEntries(m, p + 16, es[1..]);
      assert [es[0]] + es[1..] == es;
    }
  }

  /** Records from `p` are the null tag at `p` or a first record at `p`
      followed by records from p + 16. */
  lemma RecordsSplit(m: seq<byte>, p: int, es: seq<Entry>)
    requires Records(m, p, es)
    ensures es == [] ==> Load64(m, p) == Some(DT_NULL as u64)
    ensures es != [] ==>
      && Load64(m, p) == Some(es[0].tag) && es[0].tag != DT_NULL && Load64(m, p + 8) == Some(es[0].value)
      && Records(m, p + 16, es[1..])
  {
    hide Load64;
    if es != [] {
      var rest := es[1..];
      assert Load64(m, p) == Some(es[0].tag) && Load64(m, p + 8) == Some(es[0].value) by {
        assert p + 16 * 0 == p;
      }
      forall k | 0 <= k < |rest|
        ensures Load64(m, p + 16 + 16 * k) == Some(rest[k].tag) && rest[k].tag != DT_NULL
        ensures Load64(m, p + 16 + 16 * k + 8) == Some(rest[k].value)
      {
        assert p + 16 + 16 * k == p + 16 * (k + 1) && rest[k] == es[k + 1];
      }
      assert p + 16 + 16 * |rest| == p + 16 * |es|;
    }
  }

  /** The walk succeeds exactly when the section is terminated inside mapped
      memory and every entry in it passes the loader's checks. */
  lemma ParseSucceeds(s: Slots, m: seq<byte>, p: int)
    ensures ParseFrom(s, m, p).Ok? <==>
      && Entries(m, p).Some?
      && forall i :: 0 <= i < |Entries(m, p).value| ==> Accepted(m, Field(s, BASE), Entries(m, p).value[i])
  {
    ParseIsApplyAll(s, m, p);
  }

  /** The walk agrees with applying the section's entries in order, and a
      section that is not terminated inside mapped memory halts the walk. */
  lemma {:induction false} ParseIsApplyAll(s: Slots, m: seq<byte>, p: int)
    ensures Entries(m, p).None? ==> ParseFrom(s, m, p).Fatal?
    ensures Entries(m, p).Some? ==> ParseFrom(s, m, p) == ApplyAll(s, m, Entries(m, p).value)
    decreases |m| - p
  {
    match Load64(m, p)
    case None =>
    case Some(tag) =>
      if tag != DT_NULL {
        match Load64(m, p + 8)
        case None =>
        case Some(value) =>
          match ApplyEntry(s, m, Entry(tag, value))
          case Fatal(f) =>
            if Entries(m, p).Some? {
              var es := Entries(m, p).value;
              assert es[0] == Entry(tag, value);
            }
          case Ok(t) =>
            ParseIsApplyAll(t, m, p + 16);
            if Entries(m, p).Some? {
              var es := Entries(m, p).value;
              assert es[0] == Entry(tag, value) && es[1..] == Entries(m, p + 16).value;
            }
      }
  }

  /** Applying a list is applying its prefix, then its suffix. */
  lemma {:induction false} ApplyAllSplit(s: Slots, m: seq<byte>, es: seq<Entry>, i: nat)
    requires i <= |es|
    ensures ApplyAll(s, m, es) ==
      match ApplyAll(s, m, es[..i])
      case Fatal(f) => Fatal(f)
      case Ok(t) => ApplyAll(t, m, es[i..])
    decreases i
  {
    if i > 0 {
      assert es[..i][0] == es[0] && es[..i][1..] == es[1..][..i - 1];
      match ApplyEntry(s, m, es[0])
      case Fatal(f) =>
      case Ok(t) =>
        ApplyAllSplit(t, m, es[1..], i - 1);
        assert es[1..][i - 1..] == es[i..];
    }
  }

  /** The value a slot ends up with is the one written by the last entry that
      writes it: `before` is the object just before that entry. */
  lemma LastWriterWins(s: Slots, m: seq<byte>, es: seq<Entry>, i: nat, os: set<Offset>)
    returns (before: Slots, after: Slots)
    requires ApplyAll(s, m, es).Ok?
    requires i < |es|
    requires forall j :: i < j < |es| ==> os !! Writes(es[j].tag)
    ensures Field(before, BASE) == Field(s, BASE)
    ensures ApplyEntry(before, m, es[i]) == Ok(after)
    ensures forall o :: o in os ==> Field(ApplyAll(s, m, es).value, o) == Field(after, o)
  {
    ApplyAllSplit(s, m, es, i);
    before := ApplyAll(s, m, es[..i]).value;
    assert Field(before, BASE) == Field(s, BASE) by {
      forall j | 0 <= j < i ensures BASE !in Writes(es[..i][j].tag) {
        HeaderNeverWritten(es[..i][j].tag);
      }
    }
    var rest := es[i..];
    assert rest[0] == es[i];
    after := ApplyEntry(before, m, es[i]).value;
    assert rest[1..] == es[i + 1..];
    forall o | o in os ensures forall j :: 0 <= j < |rest[1..]| ==> o !in Writes(rest[1..][j].tag) {
      forall j | 0 <= j < |rest[1..]| ensures o !in Writes(rest[1..][j].tag) {
        assert rest[1..][j] == es[i + 1 + j];
      }
    }
  }

  /** An address tag leaves base + value in its slot, unless a later entry
      overwrites that slot (DT_REL and DT_RELA share one). */
  lemma {:induction false} ParsedAddressTag(s: Slots, m: seq<byte>, es: seq<Entry>, i: nat)
    requires ApplyAll(s, m, es).Ok?
    requires i < |es| && es[i].tag in ADDRESS_TAGS
    requires forall j :: i < j < |es| ==> ADDRESS_TAGS[es[i].tag] !in Writes(es[j].tag)
    ensures Field(ApplyAll(s, m, es).value, ADDRESS_TAGS[es[i].tag]) == Wrap64(Field(s, BASE) + es[i].value)
  {
    var before, after := LastWriterWins(s, m, es, i, {ADDRESS_TAGS[es[i].tag]});
  }

  /** A scalar tag leaves its value verbatim in its slot. */
  lemma {:induction false} ParsedScalarTag(s: Slots, m: seq<byte>, es: seq<Entry>, i: nat)
    requires ApplyAll(s, m, es).Ok?
    requires i < |es| && es[i].tag in SCALAR_TAGS
    requires forall j :: i < j < |es| ==> es[j].tag != es[i].tag
    ensures Field(ApplyAll(s, m, es).value, SCALAR_TAGS[es[i].tag]) == es[i].value
  {
    forall j | i < j < |es| ensures SCALAR_TAGS[es[i].tag] !in Writes(es[j].tag) {
      SingleWriter(es[j].tag, es[i].tag);
    }
    var before, after := LastWriterWins(s, m, es, i, {SCALAR_TAGS[es[i].tag]});
    DispatchScalarTag(before, m, es[i]);
  }

  /** DT_PLTREL leaves 1 in is_rela_plt when its value is DT_RELA and 0 when it
      is DT_REL; a parse that succeeds never saw any other value. */
  lemma {:induction false} ParsedPltRel(s: Slots, m: seq<byte>, es: seq<Entry>, i: nat)
    requires ApplyAll(s, m, es).Ok?
    requires i < |es| && es[i].tag == DT_PLTREL
    requires forall j :: i < j < |es| ==> es[j].tag != DT_PLTREL
    ensures es[i].value == DT_RELA || es[i].value == DT_REL
    ensures Field(ApplyAll(s, m, es).value, IS_RELA_PLT) == if es[i].value == DT_RELA then 1 else 0
  {
    forall j | i < j < |es| ensures IS_RELA_PLT !in Writes(es[j].tag) {
      SingleWriter(es[j].tag, DT_PLTREL);
    }
    var before, after := LastWriterWins(s, m, es, i, {IS_RELA_PLT});
  }

  lemma SameHashSlots(r: Slots, r': Slots)
    requires forall o :: o in HASH_SLOTS ==> Field(r, o) == Field(r', o)
    ensures StoredHash(r) == StoredHash(r')
  {
    assert HASH_NBUCKET in HASH_SLOTS && HASH_NCHAIN in HASH_SLOTS;
    assert HASH_BUCKET in HASH_SLOTS && HASH_CHAIN in HASH_SLOTS;
  }

  /** DT_HASH fills the four hash slots from the table it points at. */
  lemma {:induction false} ParsedHash(s: Slots, m: seq<byte>, es: seq<Entry>, i: nat)
    requires ApplyAll(s, m, es).Ok?
    requires i < |es| && es[i].tag == DT_HASH
    requires forall j :: i < j < |es| ==> es[j].tag != DT_HASH
    ensures HashStored(ApplyAll(s, m, es).value, m, Wrap64(Field(s, BASE) + es[i].value))
  {
    hide ApplyEntry, ApplyAll, Writes;
    NoLaterHashWriter(es, i);
    var before, after := LastWriterWins(s, m, es, i, HASH_SLOTS);
    DispatchHash(before, m, es[i], after);
    SameHashSlots(ApplyAll(s, m, es).value, after);
  }

  lemma NoLaterHashWriter(es: seq<Entry>, i: nat)
    requires forall j :: i < j < |es| ==> es[j].tag != DT_HASH
    ensures forall j :: i < j < |es| ==> HASH_SLOTS !! Writes(es[j].tag)
  {
    forall j | i < j < |es| ensures HASH_SLOTS !! Writes(es[j].tag) {
      SingleWriter(es[j].tag, DT_HASH);
    }
  }

  /** A slot no entry writes keeps the value the object was created with. */
  lemma ParsedUntouched(s: Slots, m: seq<byte>, es: seq<Entry>, o: Offset)
    requires ApplyAll(s, m, es).Ok?
    requires forall i :: 0 <= i < |es| ==> o !in Writes(es[i].tag)
    ensures Field(ApplyAll(s, m, es).value, o) == Field(s, o)
  {
  }
}
