/**
  Persisted JSON documents, reduced to what the persistence code reads: a text that
  does not parse, a JSON value that is not an object, or an object. Field names the
  code looks up are constructors of `Field`; every other field is kept by name.
 */
module Documents {
  import opened Base
  import opened Decimal

  type Id = string

  datatype Field =
    | IdField | Status | QueueId | IsMedia | CheckpointEpoch
    | Fraction | DownloadedBytes | TotalBytes | TotalIsEstimate | Size
    | LastErrorKind | LastResolverFallback | Phase
    | OtherField(name: string)

  datatype Scalar = Null | Bool(b: bool) | Text(s: string) | OtherValue(json: string)

  type Object = map<Field, Scalar>

  datatype Document = Malformed(text: string) | NotObject(json: string) | Record(fields: Object)

  const PROGRESS_FIELDS: set<Field> := {Fraction, DownloadedBytes, TotalBytes, TotalIsEstimate}

  /** `value.get(key).and_then(as_str)`. */
  function StringField(doc: Document, field: Field): Option<string> {
    if doc.Record? && field in doc.fields && doc.fields[field].Text? then Some(doc.fields[field].s) else None
  }

  /** `required_string`: present, a string, and not empty. */
  function RequiredString(doc: Document, field: Field): Option<string> {
    var value := StringField(doc, field);
    if value.Some? && value.value != "" then value else None
  }

  predicate HasString(o: Object, field: Field, text: string) {
    field in o && o[field] == Text(text)
  }

  predicate IsTrue(o: Object, field: Field) {
    field in o && o[field] == Bool(true)
  }

  predicate Media(doc: Document) {
    doc.Record? && IsTrue(doc.fields, IsMedia)
  }

  /** A missing epoch counts as zero; a present one must be a string holding a u64. */
  function ParseEpoch(o: Object): Option<nat> {
    if CheckpointEpoch !in o then Some(0)
    else if o[CheckpointEpoch].Text? then ParseU64(o[CheckpointEpoch].s)
    else None
  }

  /** The epoch a media row fences snapshots with; a malformed one counts as one. */
  function FenceEpoch(o: Object): nat {
    var parsed := ParseEpoch(o);
    if parsed.Some? then parsed.value else 1
  }

  /** Stamp an epoch and drop the progress that belonged to another one. */
  function ClearProgress(o: Object, epoch: nat): Object {
    var dropped := PROGRESS_FIELDS + (if IsTrue(o, TotalIsEstimate) then {Size} else {});
    o[CheckpointEpoch := Text(ToDecimal(epoch))] - dropped
  }

  function WithoutLiveMetadata(o: Object): Object {
    o - {LastErrorKind, LastResolverFallback}
  }

  /** Portable storage passes every document through a sanitiser of transfer secrets. */
  datatype Mode = Standard | Portable(sanitize: Object -> Object)

  /** The fields the sanitiser never touches or brings in; it may turn an unfinished status into "failed". */
  ghost predicate KeepsCore(sanitize: Object -> Object) {
    forall o: Object ::
      var t := sanitize(o);
      && (forall field :: field in {IdField, QueueId, IsMedia, CheckpointEpoch, Size} + PROGRESS_FIELDS ==>
            (field in t <==> field in o) && (field in o ==> t[field] == o[field]))
      && (forall field :: field in {LastErrorKind, LastResolverFallback} && field in t ==> field in o)
      && ((Status in t <==> Status in o) &&
          (Status in o ==> t[Status] == o[Status]
                           || (o[Status].Text? && o[Status].s != "completed" && t[Status] == Text("failed"))))
  }

  ghost predicate ValidMode(mode: Mode) {
    mode.Portable? ==> KeepsCore(mode.sanitize)
  }

  function Clean(mode: Mode, o: Object): Object {
    var bare := WithoutLiveMetadata(o);
    if mode.Portable? then mode.sanitize(bare) else bare
  }

  function Prepare(mode: Mode, doc: Document): Document {
    if doc.Record? then Record(Clean(mode, doc.fields)) else doc
  }

  lemma CleanKeepsCore(mode: Mode, o: Object, field: Field)
    requires ValidMode(mode)
    requires field in {IdField, QueueId, IsMedia, CheckpointEpoch, Size} + PROGRESS_FIELDS
    ensures field in Clean(mode, o) <==> field in o
    ensures field in o ==> Clean(mode, o)[field] == o[field]
  {
    if mode.Portable? {
      var t := mode.sanitize(WithoutLiveMetadata(o));
      assert t == Clean(mode, o);
    }
  }

  /**
    Clearing progress leaves exactly the stamped epoch and no progress fields; the size goes
    with them exactly when the total was an estimate.
   */
  lemma ClearProgressMeaning(o: Object, epoch: nat)
    requires epoch <= U64_MAX
    ensures var t := ClearProgress(o, epoch);
            && ParseEpoch(t) == Some(epoch)
            && t.Keys !! {Fraction, DownloadedBytes, TotalBytes, TotalIsEstimate}
            && (forall field :: field !in {Fraction, DownloadedBytes, TotalBytes, TotalIsEstimate, CheckpointEpoch, Size} ==>
                  (field in t <==> field in o) && (field in o ==> t[field] == o[field]))
            && (Size in t <==> Size in o && !IsTrue(o, TotalIsEstimate)) && (Size in t ==> t[Size] == o[Size])
  {
    ParsePrinted(epoch);
  }
}
