/** Which header fills which field of a head, by the names that the services send. */
module KeptNames {
  import opened Bytes
  import opened HttpMessages
  import opened ResponseHeads

  // The names of the headers that fill a field.
  function NamesOf(slot: Slot): seq<string> {
    match slot
    case ContentLength => ["content-length"]
    case ContentRange => ["content-range"]
    case ContentEncoding => ["content-encoding"]
    case ContentType => ["content-type"]
    case ContentMd5 => ["content-md5"]
    case ContentLanguage => ["content-language"]
    case ContentDisposition => ["content-disposition"]
    case CacheControl => ["cache-control"]
    case StorageClass => ["x-ms-access-tier", "x-amz-storage-class"]
    case ETag => ["etag"]
    case LastModified => ["last-modified"]
    case Version => ["x-ms-version-id", "x-amz-version-id"]
    case Snapshot => ["x-ms-snapshot"]
    case CopyId => ["x-ms-copy-id"]
    case CopyStatus => ["x-ms-copy-status"]
    case RestoreStatus => ["x-amz-restore", "x-ms-archive-status"]
    case ErrorCode => ["x-ms-error-code"]
    case RequestId => ["x-ms-request-id", "x-amz-request-id"]
    case ExtendedRequestId => ["x-amz-id-2"]
  }

  // ---- Names that differ ----

  predicate AllDiffer(table: seq<Known>) {
    forall j, k :: 0 <= j < k < |table| ==> !SameIgnoringCase(table[j].name, table[k].name)
  }

  predicate IsSmall(c: char) { 'a' <= c <= 'z' || c == '-' }

  lemma DiffersAt(a: string, b: string, i: nat)
    requires i < |a| && i < |b| && a[i] != b[i] && IsSmall(a[i]) && IsSmall(b[i])
    ensures !SameIgnoringCase(Ascii(a), Ascii(b))
  {
    assert Ascii(a)[i] == a[i] as int && Ascii(b)[i] == b[i] as int;
  }

  lemma LengthOf(text: string)
    ensures |Ascii(text)| == |text|
  {
  }

  lemma ShortDiffer()
    ensures AllDiffer(UP_TO_12)
    ensures forall k :: 0 <= k < |UP_TO_12| ==> |UP_TO_12[k].name| in {4, 10, 11, 12}
  {
    hide Ascii, SameIgnoringCase;
    LengthOf("etag");
    LengthOf("x-amz-id-2");
    LengthOf("content-md5");
    LengthOf("content-type");
    LengthOf("x-ms-copy-id");
    LengthsTell();
    DiffersAt("content-type", "x-ms-copy-id", 0);
  }

  lemma Of13Differ()
    ensures AllDiffer(OF_13) && forall k :: 0 <= k < |OF_13| ==> |OF_13[k].name| == 13
  {
    hide Ascii, SameIgnoringCase;
    LengthOf("content-range");
    LengthOf("cache-control");
    LengthOf("last-modified");
    LengthOf("x-ms-snapshot");
    LengthOf("x-amz-restore");
    DiffersAt("content-range", "cache-control", 1);
    DiffersAt("content-range", "last-modified", 0);
    DiffersAt("content-range", "x-ms-snapshot", 0);
    DiffersAt("content-range", "x-amz-restore", 0);
    DiffersAt("cache-control", "last-modified", 0);
    DiffersAt("cache-control", "x-ms-snapshot", 0);
    DiffersAt("cache-control", "x-amz-restore", 0);
    DiffersAt("last-modified", "x-ms-snapshot", 0);
    DiffersAt("last-modified", "x-amz-restore", 0);
    DiffersAt("x-ms-snapshot", "x-amz-restore", 2);
  }

  lemma Of15Differ()
    ensures AllDiffer(OF_14_AND_15)
    ensures forall k :: 0 <= k < |OF_14_AND_15| ==> |OF_14_AND_15[k].name| in {14, 15}
  {
    hide Ascii, SameIgnoringCase;
    LengthOf("content-length");
    LengthOf("x-ms-version-id");
    LengthOf("x-ms-error-code");
    LengthOf("x-ms-request-id");
    LengthsTell();
    DiffersAt("x-ms-version-id", "x-ms-error-code", 5);
    DiffersAt("x-ms-version-id", "x-ms-request-id", 5);
    DiffersAt("x-ms-error-code", "x-ms-request-id", 5);
  }

  lemma Of16Differ()
    ensures AllDiffer(OF_16) && forall k :: 0 <= k < |OF_16| ==> |OF_16[k].name| == 16
  {
    hide Ascii, SameIgnoringCase;
    LengthOf("content-encoding");
    LengthOf("content-language");
    LengthOf("x-ms-access-tier");
    LengthOf("x-amz-version-id");
    LengthOf("x-ms-copy-status");
    LengthOf("x-amz-request-id");
    DiffersAt("content-encoding", "content-language", 8);
    DiffersAt("content-encoding", "x-ms-access-tier", 0);
    DiffersAt("content-encoding", "x-amz-version-id", 0);
    DiffersAt("content-encoding", "x-ms-copy-status", 0);
    DiffersAt("content-encoding", "x-amz-request-id", 0);
    DiffersAt("content-language", "x-ms-access-tier", 0);
    DiffersAt("content-language", "x-amz-version-id", 0);
    DiffersAt("content-language", "x-ms-copy-status", 0);
    DiffersAt("content-language", "x-amz-request-id", 0);
    DiffersAt("x-ms-access-tier", "x-amz-version-id", 2);
    DiffersAt("x-ms-access-tier", "x-ms-copy-status", 5);
    DiffersAt("x-ms-access-tier", "x-amz-request-id", 2);
    DiffersAt("x-amz-version-id", "x-ms-copy-status", 2);
    DiffersAt("x-amz-version-id", "x-amz-request-id", 6);
    DiffersAt("x-ms-copy-status", "x-amz-request-id", 2);
  }

  lemma Of19Differ()
    ensures AllDiffer(OF_19) && forall k :: 0 <= k < |OF_19| ==> |OF_19[k].name| == 19
  {
    hide Ascii, SameIgnoringCase;
    LengthOf("content-disposition");
    LengthOf("x-amz-storage-class");
    LengthOf("x-ms-archive-status");
    DiffersAt("content-disposition", "x-amz-storage-class", 0);
    DiffersAt("content-disposition", "x-ms-archive-status", 0);
    DiffersAt("x-amz-storage-class", "x-ms-archive-status", 2);
  }

  lemma LengthsTell()
    ensures forall a: bytes, b: bytes :: SameIgnoringCase(a, b) ==> |a| == |b|
  {
  }

  // Tables whose names are of other lengths.
  lemma TogetherDiffer(a: seq<Known>, b: seq<Known>)
    requires AllDiffer(a) && AllDiffer(b)
    requires forall j, k :: 0 <= j < |a| && 0 <= k < |b| ==> |a[j].name| < |b[k].name|
    ensures AllDiffer(a + b)
  {
    hide SameIgnoringCase;
    LengthsTell();
  }

  lemma KnownDiffer()
    ensures AllDiffer(KNOWN)
  {
    hide AllDiffer, UP_TO_12, OF_13, OF_14_AND_15, OF_16, OF_19;
    ShortDiffer();
    Of13Differ();
    Of15Differ();
    Of16Differ();
    Of19Differ();
    TogetherDiffer(UP_TO_12, OF_13);
    TogetherDiffer(UP_TO_12 + OF_13, OF_14_AND_15);
    TogetherDiffer(UP_TO_12 + OF_13 + OF_14_AND_15, OF_16);
    TogetherDiffer(UP_TO_12 + OF_13 + OF_14_AND_15 + OF_16, OF_19);
  }

  // ---- The table, by the field ----

  // `slot` is the field of a header of this name, by the table.
  ghost predicate Lists(table: seq<Known>, name: bytes, slot: Slot) {
    exists k :: 0 <= k < |table| && table[k].slot == slot && SameIgnoringCase(name, table[k].name)
  }

  lemma {:induction false} SlotIsListed(name: bytes, table: seq<Known>, slot: Slot)
    requires AllDiffer(table)
    ensures SlotNamed(name, table) == Some(slot) <==> Lists(table, name, slot)
  {
    hide SameIgnoringCase;
    if table != [] {
      SlotIsListed(name, table[1..], slot);
      SameTwice();
      assert forall k :: 0 < k < |table| ==> table[k] == table[1..][k - 1];
      assert forall k :: 0 <= k < |table[1..]| ==> table[1..][k] == table[k + 1];
    }
  }

  lemma SameTwice()
    ensures forall a: bytes, b: bytes, c: bytes ::
              SameIgnoringCase(a, b) && SameIgnoringCase(a, c) ==> SameIgnoringCase(b, c)
  {
  }

  // An entry is of one of its field's names.
  ghost predicate IsEntry(e: Known) {
    exists i :: 0 <= i < |NamesOf(e.slot)| && e.name == Ascii(NamesOf(e.slot)[i])
  }

  lemma EntryIs(text: string, slot: Slot, i: nat)
    requires i < |NamesOf(slot)| && NamesOf(slot)[i] == text
    ensures IsEntry(Known(Ascii(text), slot))
  {
  }

  lemma ShortEntries()
    ensures forall k :: 0 <= k < |UP_TO_12| ==> IsEntry(UP_TO_12[k])
  {
    hide Ascii, IsEntry;
    EntryIs("etag", ETag, 0);
    EntryIs("x-amz-id-2", ExtendedRequestId, 0);
    EntryIs("content-md5", ContentMd5, 0);
    EntryIs("content-type", ContentType, 0);
    EntryIs("x-ms-copy-id", CopyId, 0);
  }

  lemma EntriesOf13()
    ensures forall k :: 0 <= k < |OF_13| ==> IsEntry(OF_13[k])
  {
    hide Ascii, IsEntry;
    EntryIs("content-range", ContentRange, 0);
    EntryIs("cache-control", CacheControl, 0);
    EntryIs("last-modified", LastModified, 0);
    EntryIs("x-ms-snapshot", Snapshot, 0);
    EntryIs("x-amz-restore", RestoreStatus, 0);
  }

  lemma EntriesOf15()
    ensures forall k :: 0 <= k < |OF_14_AND_15| ==> IsEntry(OF_14_AND_15[k])
  {
    hide Ascii, IsEntry;
    EntryIs("content-length", ContentLength, 0);
    EntryIs("x-ms-version-id", Version, 0);
    EntryIs("x-ms-error-code", ErrorCode, 0);
    EntryIs("x-ms-request-id", RequestId, 0);
  }

  lemma EntriesOf16()
    ensures forall k :: 0 <= k < |OF_16| ==> IsEntry(OF_16[k])
  {
    hide Ascii, IsEntry;
    EntryIs("content-encoding", ContentEncoding, 0);
    EntryIs("content-language", ContentLanguage, 0);
    EntryIs("x-ms-access-tier", StorageClass, 0);
    EntryIs("x-amz-version-id", Version, 1);
    EntryIs("x-ms-copy-status", CopyStatus, 0);
    EntryIs("x-amz-request-id", RequestId, 1);
  }

  lemma EntriesOf19()
    ensures forall k :: 0 <= k < |OF_19| ==> IsEntry(OF_19[k])
  {
    hide Ascii, IsEntry;
    EntryIs("content-disposition", ContentDisposition, 0);
    EntryIs("x-amz-storage-class", StorageClass, 1);
    EntryIs("x-ms-archive-status", RestoreStatus, 1);
  }

  lemma EntriesAreNamed()
    ensures forall k :: 0 <= k < |KNOWN| ==> IsEntry(KNOWN[k])
  {
    hide IsEntry, UP_TO_12, OF_13, OF_14_AND_15, OF_16, OF_19;
    ShortEntries();
    EntriesOf13();
    EntriesOf15();
    EntriesOf16();
    EntriesOf19();
  }

  // Every name of a field has an entry.
  lemma NamesAreListed(slot: Slot, i: nat)
    requires i < |NamesOf(slot)|
    ensures Known(Ascii(NamesOf(slot)[i]), slot) in KNOWN
  {
    hide Ascii;
    var e := Known(Ascii(NamesOf(slot)[i]), slot);
    assert e in UP_TO_12 || e in OF_13 || e in OF_14_AND_15 || e in OF_16 || e in OF_19;
  }

  // A header fills a field exactly if its name, in any case, is one of that field's.
  lemma FieldsAreNamed(name: bytes, slot: Slot)
    ensures SlotNamed(name, KNOWN) == Some(slot)
       <==> exists i :: 0 <= i < |NamesOf(slot)| && SameIgnoringCase(name, Ascii(NamesOf(slot)[i]))
  {
    hide SameIgnoringCase, Ascii, KNOWN, NamesOf;
    KnownDiffer();
    SlotIsListed(name, KNOWN, slot);
    EntriesAreNamed();
    if Lists(KNOWN, name, slot) {
      var k :| 0 <= k < |KNOWN| && KNOWN[k].slot == slot && SameIgnoringCase(name, KNOWN[k].name);
      assert IsEntry(KNOWN[k]);
    }
    forall i | 0 <= i < |NamesOf(slot)| && SameIgnoringCase(name, Ascii(NamesOf(slot)[i]))
      ensures Lists(KNOWN, name, slot)
    {
      NamesAreListed(slot, i);
    }
  }
}
