/** The row codec of pkg/storage/secret/store.go: a `SecureValue` resource is flattened
    into one table row (`toSecureValueRow`) and read back (`toK8s`). Labels, annotations
    and the `apis` list are kept as encoded strings; the plaintext must never appear in
    any of them. */
module Codec {
  import opened Bytes
  import opened Wrappers
  import opened Errors
  import opened Seqs
  import opened Json

  type Labels = map<GoString, GoString>

  /** types.go: the spec of a secure value. `value` is only ever set on writes. */
  datatype SecureValueSpec = SecureValueSpec(title: GoString, value: GoString, apis: seq<GoString>)

  /** A `SecureValue` with the metadata the store reads and writes as plain fields:
      the creation timestamp (milliseconds since the epoch), the `createdBy`,
      `updatedBy` and `updatedTimestamp` metadata, and the resource version
      (`None` when it is unset or not an integer). */
  datatype SecureValue = SecureValue(
    namespace: GoString,
    name: GoString,
    uid: GoString,
    creationTimestamp: int,
    labels: Labels,
    annotations: Labels,
    createdBy: GoString,
    updatedBy: GoString,
    updatedTimestamp: int,
    resourceVersion: Option<int>,
    spec: SecureValueSpec)

  /** `secureValueRow`: one row of the `secure_value` table. */
  datatype Row = Row(
    uid: GoString,
    namespace: GoString,
    name: GoString,
    title: GoString,
    salt: GoString,
    value: GoString,
    keeper: GoString,
    addr: GoString,
    created: int,
    createdBy: GoString,
    updated: int,
    updatedBy: GoString,
    annotations: GoString,
    labels: GoString,
    apis: GoString)

  // ---------------------------------------------------------------------------
  // Annotations the store owns and never persists from the caller

  const LastAppliedConfiguration: GoString := Ascii("kubectl.kubernetes.io/last-applied-configuration")
  const AnnoKeyCreatedBy: GoString := Ascii("grafana.app/createdBy")
  const AnnoKeyUpdatedBy: GoString := Ascii("grafana.app/updatedBy")
  const AnnoKeyUpdatedTimestamp: GoString := Ascii("grafana.app/updatedTimestamp")

  /** `skipAnnotations`. */
  const SkipAnnotations: set<GoString> :=
    {LastAppliedConfiguration, AnnoKeyCreatedBy, AnnoKeyUpdatedBy, AnnoKeyUpdatedTimestamp}

  /** `CleanAnnotations`: a fresh map with exactly the entries whose key is not skipped,
      values unchanged. */
  function CleanAnnotations(anno: Labels): (r: Labels)
    ensures forall k :: k in r <==> k in anno && k !in SkipAnnotations
    ensures forall k | k in r :: r[k] == anno[k]
  {
    map k | k in anno && k !in SkipAnnotations :: anno[k]
  }

  /** Cleaning twice is cleaning once. */
  lemma CleanAnnotationsIdempotent(anno: Labels)
    ensures CleanAnnotations(CleanAnnotations(anno)) == CleanAnnotations(anno)
  {
  }

  /** A map without skipped keys is left as it is. */
  lemma CleanAnnotationsKeepsClean(anno: Labels)
    requires forall k | k in anno :: k !in SkipAnnotations
    ensures CleanAnnotations(anno) == anno
  {
  }

  // ---------------------------------------------------------------------------
  // toSecureValueRow

  /** The `labels` column: "" for no labels, otherwise the encoded map. */
  function LabelsColumn(labels: Labels): (t: GoString)
    ensures t == [] <==> |labels| == 0
  {
    if |labels| > 0 then EncodeMap(labels) else []
  }

  /** The `apis` column: "" for no apis, otherwise the encoded list. */
  function ApisColumn(apis: seq<GoString>): (t: GoString)
    ensures t == [] <==> |apis| == 0
  {
    if |apis| > 0 then EncodeList(apis) else []
  }

  /** The `annotations` column: "" when nothing is left after cleaning. */
  function AnnotationsColumn(anno: Labels): (t: GoString)
    ensures t == [] <==> |CleanAnnotations(anno)| == 0
  {
    if |anno| > 0 then
      var clean := CleanAnnotations(anno);
      if |clean| > 0 then EncodeMap(clean) else []
    else
      assert CleanAnnotations(anno) == map[];
      []
  }

  /** True when the non-empty plaintext `v` occurs in one of the encoded columns. */
  predicate Leaks(row: Row, v: GoString) {
    v != [] && (Contains(row.annotations, v) || Contains(row.labels, v) || Contains(row.apis, v))
  }

  /** The leak check of lines 168-179: the first encoded column, in the order annotations,
      labels, apis, that holds the non-empty plaintext. */
  function LeakError(row: Row, v: GoString): (r: Option<Error>)
    ensures r.None? <==> !Leaks(row, v)
    ensures r == Some(SecretInAnnotations) ==> Contains(row.annotations, v)
    ensures r == Some(SecretInLabels) ==> Contains(row.labels, v)
    ensures r == Some(SecretInApis) ==> Contains(row.apis, v)
    ensures r.Some? ==> r.value in {SecretInAnnotations, SecretInLabels, SecretInApis}
  {
    if v == [] then None
    else if Contains(row.annotations, v) then Some(SecretInAnnotations)
    else if Contains(row.labels, v) then Some(SecretInLabels)
    else if Contains(row.apis, v) then Some(SecretInApis)
    else None
  }

  /** `toSecureValueRow`: everything of the resource, the plaintext included, flattened;
      salt, keeper and address are left blank for the caller to fill in. Fails only when
      a non-empty plaintext occurs inside an encoded column. */
  function ToRow(sv: SecureValue): (r: Result<Row, Error>)
    ensures sv.spec.value == [] ==> r.Ok?
    ensures r.Err? ==> r.error in {SecretInAnnotations, SecretInLabels, SecretInApis}
    ensures r.Err? ==>
      sv.spec.value != [] &&
      (Contains(AnnotationsColumn(sv.annotations), sv.spec.value) ||
       Contains(LabelsColumn(sv.labels), sv.spec.value) ||
       Contains(ApisColumn(sv.spec.apis), sv.spec.value))
    ensures r.Ok? ==> !Leaks(r.value, sv.spec.value)
    ensures r.Ok? ==>
      (r.value.labels == [] <==> |sv.labels| == 0) &&
      (r.value.apis == [] <==> |sv.spec.apis| == 0) &&
      (r.value.annotations == [] <==> |CleanAnnotations(sv.annotations)| == 0)
    ensures r.Ok? ==>
      r.value.uid == sv.uid && r.value.namespace == sv.namespace && r.value.name == sv.name &&
      r.value.title == sv.spec.title && r.value.value == sv.spec.value &&
      r.value.salt == [] && r.value.keeper == [] && r.value.addr == [] &&
      r.value.created == sv.creationTimestamp &&
      r.value.createdBy == sv.createdBy && r.value.updatedBy == sv.updatedBy &&
      r.value.updated == (if sv.resourceVersion.Some? then sv.resourceVersion.value else 0)
  {
    var row := Row(
      uid := sv.uid, namespace := sv.namespace, name := sv.name, title := sv.spec.title,
      salt := [], value := sv.spec.value, keeper := [], addr := [],
      created := sv.creationTimestamp, createdBy := sv.createdBy,
      updated := if sv.resourceVersion.Some? then sv.resourceVersion.value else 0,
      updatedBy := sv.updatedBy,
      annotations := AnnotationsColumn(sv.annotations),
      labels := LabelsColumn(sv.labels),
      apis := ApisColumn(sv.spec.apis));
    match LeakError(row, sv.spec.value)
    case Some(e) => Err(e)
    case None => Ok(row)
  }

  // ---------------------------------------------------------------------------
  // toK8s

  /** json.Unmarshal of a non-empty `apis` column; "" leaves the list empty. */
  function ApisOfColumn(t: GoString): (r: Result<seq<GoString>, Error>)
    ensures r.Err? ==> r.error == MalformedJson
    ensures t == [] ==> r == Ok([])
  {
    if t == [] then Ok([])
    else match ParseList(t)
      case None => Err(MalformedJson)
      case Some(xs) => Ok(xs)
  }

  /** json.Unmarshal of a non-empty map column; "" leaves the map empty. */
  function MapOfColumn(t: GoString): (r: Result<Labels, Error>)
    ensures r.Err? ==> r.error == MalformedJson
    ensures t == [] ==> r == Ok(map[])
  {
    if t == [] then Ok(map[])
    else match ParseMap(t)
      case None => Err(MalformedJson)
      case Some(m) => Ok(m)
  }

  /** `secureValueRow.toK8s`: the resource a row stands for. The plaintext is never
      filled in, and the `updated` column serves as both the resource version and the
      update timestamp. Fails exactly when a non-empty column does not decode. */
  function ToK8s(row: Row): (r: Result<SecureValue, Error>)
    ensures r.Err? ==> r.error == MalformedJson
    ensures r.Ok? <==>
      ApisOfColumn(row.apis).Ok? && MapOfColumn(row.annotations).Ok? && MapOfColumn(row.labels).Ok?
    ensures r.Ok? ==>
      r.value.spec.value == [] &&
      r.value.resourceVersion == Some(row.updated) && r.value.updatedTimestamp == row.updated &&
      r.value.namespace == row.namespace && r.value.name == row.name && r.value.uid == row.uid &&
      r.value.creationTimestamp == row.created && r.value.spec.title == row.title &&
      r.value.createdBy == row.createdBy && r.value.updatedBy == row.updatedBy &&
      r.value.spec.apis == ApisOfColumn(row.apis).value &&
      r.value.annotations == MapOfColumn(row.annotations).value &&
      r.value.labels == MapOfColumn(row.labels).value
  {
    var apis :- ApisOfColumn(row.apis);
    var annotations :- MapOfColumn(row.annotations);
    var labels :- MapOfColumn(row.labels);
    Ok(SecureValue(
      namespace := row.namespace, name := row.name, uid := row.uid,
      creationTimestamp := row.created,
      labels := labels, annotations := annotations,
      createdBy := row.createdBy, updatedBy := row.updatedBy,
      updatedTimestamp := row.updated, resourceVersion := Some(row.updated),
      spec := SecureValueSpec(row.title, [], apis)))
  }

  // ---------------------------------------------------------------------------
  // The rows the codec produces

  predicate CanonicalMapColumn(t: GoString) {
    t == [] || (ParseMap(t).Some? && |ParseMap(t).value| > 0 && EncodeMap(ParseMap(t).value) == t)
  }

  predicate CanonicalApisColumn(t: GoString) {
    t == [] || (ParseList(t).Some? && |ParseList(t).value| > 0 && EncodeList(ParseList(t).value) == t)
  }

  /** Every column is "" or the encoding of a non-empty collection, and no skipped
      annotation is stored. */
  predicate Canonical(row: Row) {
    CanonicalMapColumn(row.labels) && CanonicalApisColumn(row.apis) &&
    CanonicalMapColumn(row.annotations) &&
    (row.annotations != [] ==> forall k | k in ParseMap(row.annotations).value :: k !in SkipAnnotations)
  }

  lemma MapColumnRoundTrip(m: Labels)
    ensures MapOfColumn(LabelsColumn(m)) == Ok(m)
    ensures CanonicalMapColumn(LabelsColumn(m))
  {
    if |m| > 0 {
      ParseEncodeMap(m);
    } else {
      assert m == map[];
    }
  }

  lemma ApisColumnRoundTrip(xs: seq<GoString>)
    ensures ApisOfColumn(ApisColumn(xs)) == Ok(xs)
    ensures CanonicalApisColumn(ApisColumn(xs))
  {
    if |xs| > 0 {
      ParseEncodeList(xs);
    }
  }

  lemma AnnotationsColumnRoundTrip(anno: Labels)
    ensures MapOfColumn(AnnotationsColumn(anno)) == Ok(CleanAnnotations(anno))
    ensures CanonicalMapColumn(AnnotationsColumn(anno))
    ensures AnnotationsColumn(anno) == LabelsColumn(CleanAnnotations(anno))
  {
    var clean := CleanAnnotations(anno);
    if |anno| == 0 {
      assert clean == map[];
    }
    MapColumnRoundTrip(clean);
  }

  /** Every row `toSecureValueRow` produces is canonical. */
  lemma ToRowCanonical(sv: SecureValue)
    requires ToRow(sv).Ok?
    ensures Canonical(ToRow(sv).value)
  {
    MapColumnRoundTrip(sv.labels);
    ApisColumnRoundTrip(sv.spec.apis);
    AnnotationsColumnRoundTrip(sv.annotations);
  }

  /** Reading back a freshly flattened resource gives the resource with its annotations
      cleaned, its plaintext blanked and its resource version settled. */
  lemma ToK8sToRow(sv: SecureValue)
    requires ToRow(sv).Ok?
    ensures ToK8s(ToRow(sv).value).Ok?
    ensures var back := ToK8s(ToRow(sv).value).value;
      back.labels == sv.labels && back.spec.apis == sv.spec.apis &&
      back.annotations == CleanAnnotations(sv.annotations) &&
      back.spec.value == [] && back.spec.title == sv.spec.title &&
      back.namespace == sv.namespace && back.name == sv.name && back.uid == sv.uid &&
      back.creationTimestamp == sv.creationTimestamp &&
      back.createdBy == sv.createdBy && back.updatedBy == sv.updatedBy &&
      back.resourceVersion == Some(ToRow(sv).value.updated)
  {
    MapColumnRoundTrip(sv.labels);
    ApisColumnRoundTrip(sv.spec.apis);
    AnnotationsColumnRoundTrip(sv.annotations);
  }

  /** A canonical row always reads back. */
  lemma CanonicalReadable(row: Row)
    requires Canonical(row)
    ensures ToK8s(row).Ok?
  {
  }

  /** The row with the secret material (salt, ciphertext, keeper, address) blanked. */
  function Public(row: Row): Row {
    row.(salt := [], value := [], keeper := [], addr := [])
  }

  /** Flattening the resource a canonical row reads back as gives the row again, except
      for the secret material, which `toK8s` never exposes. */
  lemma ToRowToK8s(row: Row)
    requires Canonical(row)
    ensures ToK8s(row).Ok?
    ensures ToRow(ToK8s(row).value) == Ok(Public(row))
  {
    var sv := ToK8s(row).value;
    if row.labels != [] {
      assert LabelsColumn(sv.labels) == row.labels;
    }
    if row.apis != [] {
      assert ApisColumn(sv.spec.apis) == row.apis;
    }
    CleanAnnotationsKeepsClean(sv.annotations);
    if row.annotations != [] {
      assert AnnotationsColumn(sv.annotations) == row.annotations;
    }
  }

  // ---------------------------------------------------------------------------
  // The row `Update` rebuilds from the caller's object

  /** Lines 344-356 as written: flatten the caller's object (whose value `Update` has
      already cleared when it equals the stored plaintext) and carry over the secret
      material and the immutable metadata of the stored row. */
  function RebuildRowAsWritten(sv: SecureValue, existing: Row): (r: Result<Row, Error>)
    ensures r.Ok? <==> ToRow(sv).Ok?
    ensures r.Ok? ==>
      r.value.salt == existing.salt && r.value.value == existing.value &&
      r.value.keeper == existing.keeper && r.value.addr == existing.addr &&
      r.value.created == existing.created && r.value.createdBy == existing.createdBy &&
      r.value.updatedBy == existing.updatedBy
    ensures r.Ok? ==>
      r.value.uid == sv.uid && r.value.namespace == sv.namespace && r.value.name == sv.name &&
      r.value.title == sv.spec.title &&
      r.value.labels == ToRow(sv).value.labels && r.value.apis == ToRow(sv).value.apis &&
      r.value.annotations == ToRow(sv).value.annotations &&
      r.value.updated == ToRow(sv).value.updated
  {
    var row :- ToRow(sv);
    Ok(row.(salt := existing.salt, value := existing.value, keeper := existing.keeper,
            addr := existing.addr, created := existing.created,
            createdBy := existing.createdBy, updatedBy := existing.updatedBy))
  }

  /** The rebuild as intended: the plaintext the caller supplied is kept out of the
      encoded columns even when it equals the stored one and was therefore cleared from
      the object before flattening. */
  function RebuildRow(sv: SecureValue, supplied: GoString, existing: Row): (r: Result<Row, Error>)
    ensures r.Ok? ==> !Leaks(r.value, supplied) && !Leaks(r.value, sv.spec.value)
    ensures r.Ok? ==> r == RebuildRowAsWritten(sv, existing)
    ensures RebuildRowAsWritten(sv, existing).Ok? && !Leaks(RebuildRowAsWritten(sv, existing).value, supplied)
      ==> r == RebuildRowAsWritten(sv, existing)
    ensures r.Err? ==> r.error in {SecretInAnnotations, SecretInLabels, SecretInApis}
  {
    var row :- RebuildRowAsWritten(sv, existing);
    match LeakError(row, supplied)
    case Some(e) => Err(e)
    case None => Ok(row)
  }

  /** The rebuilt row is canonical, like every row `toSecureValueRow` produces. */
  lemma RebuildRowCanonical(sv: SecureValue, supplied: GoString, existing: Row)
    requires RebuildRow(sv, supplied, existing).Ok?
    ensures Canonical(RebuildRow(sv, supplied, existing).value)
  {
    ToRowCanonical(sv);
  }

  /** The row rebuilt as the code is written is canonical too. */
  lemma RebuildRowAsWrittenCanonical(sv: SecureValue, existing: Row)
    requires RebuildRowAsWritten(sv, existing).Ok?
    ensures Canonical(RebuildRowAsWritten(sv, existing).value)
  {
    ToRowCanonical(sv);
  }

  /** As written, once the value has been cleared the leak check no longer looks at it:
      a resubmitted plaintext that occurs in the labels is stored there. The corrected
      rebuild refuses the same request. */
  lemma {:induction false} RebuildAsWrittenLeaks(sv: SecureValue, supplied: GoString, existing: Row)
    requires sv.spec.value == [] && supplied != []
    requires Contains(LabelsColumn(sv.labels), supplied)
    ensures RebuildRowAsWritten(sv, existing).Ok?
    ensures Leaks(RebuildRowAsWritten(sv, existing).value, supplied)
    ensures RebuildRow(sv, supplied, existing).Err?
  {
  }

  /** A concrete instance: the stored plaintext is `p` and the caller resubmits it with
      the labels `{"p":"p"}`. */
  lemma LeakExample(sv: SecureValue, existing: Row)
    requires sv.spec.value == [] && sv.labels == map[[112 as byte] := [112 as byte]]
    ensures RebuildRowAsWritten(sv, existing).Ok?
    ensures Leaks(RebuildRowAsWritten(sv, existing).value, [112 as byte])
    ensures RebuildRow(sv, [112 as byte], existing).Err?
  {
    var p: GoString := [112];
    var m := sv.labels;
    var ks := SortedKeys(m.Keys);
    assert |ks| == 1 && ks[0] in m.Keys;
    assert ks == [p];
    var t := LabelsColumn(m);
    assert t == [OpenBrace] + QuoteString(p) + [ColonChar] + QuoteString(p) + [CloseBrace];
    assert OccursAt(t, p, 2);
    RebuildAsWrittenLeaks(sv, p, existing);
  }
}
