/** Backends, internal/arm/backends.go: a resource kept twice, as typed fields and as the document its
    client sent, through every PUT and PATCH. */
module Backends {
  import opened Wrappers
  import opened Documents
  import opened GoStrings
  import opened Decoding

  const KEYS: seq<string> := ["title", "description", "url", "protocol", "resourceId"]

  /** A stored backend. Rows written before documents were kept have none. */
  datatype Row = Row(title: string, description: string, url: string, protocol: string, resourceId: string,
                     document: Option<Fields>) {
    function Get(key: string): string
      requires key in KEYS
    {
      match key
      case "title" => title
      case "description" => description
      case "url" => url
      case "protocol" => protocol
      case _ => resourceId
    }
  }

  const BLANK := Row("", "", "", "", "", None)

  /** The decoded request body: the string fields it holds under these keys. */
  datatype Payload = Payload(title: Option<string>, description: Option<string>, url: Option<string>,
                             protocol: Option<string>, resourceId: Option<string>)

  /** A document's properties, or none where they are missing or no object. */
  function Properties(document: Fields): Fields {
    if "properties" in document && document["properties"].Object? then document["properties"].fields else map[]
  }

  function Text(properties: Fields, key: string): Option<string> {
    if key in properties && properties[key].String? then Some(properties[key].s) else None
  }

  predicate NulledOut(properties: Fields, key: string) {
    key in properties && properties[key].Null?
  }

  /** What the body says of one field, to a decoder that matches keys in any case. */
  function DecodedText(document: Fields, key: string): Option<string> {
    ReadNested(document, "properties", key)
  }

  function Decode(document: Fields): Payload {
    Payload(DecodedText(document, "title"), DecodedText(document, "description"), DecodedText(document, "url"),
            DecodedText(document, "protocol"), DecodedText(document, "resourceId"))
  }

  function Clean(document: Fields): Fields {
    document - {"id", "name", "type", "etag"}
  }

  /** `backendWire`: the document with the typed fields written over its properties. */
  function Wire(row: Row, id: string, name: string): Fields {
    var base := if row.document.Some? then row.document.value else map[];
    base["id" := String(id)]["name" := String(name)]["type" := String("Microsoft.ApiManagement/service/backends")]
        ["properties" := Object(Properties(base)["title" := String(row.title)]["description" := String(row.description)]
                                               ["url" := String(row.url)]["protocol" := String(row.protocol)]
                                               ["resourceId" := String(row.resourceId)])]
  }

  /** What becomes of one typed field: cleared by a null under its exact key, or set to what the decoder
      read, or left alone. */
  function Updated(held: string, body: Fields, key: string): string {
    if NulledOut(Properties(body), key) then "" else Or(DecodedText(body, key), held)
  }

  function WithFields(row: Row, body: Fields, document: Option<Fields>): Row {
    Row(Updated(row.title, body, "title"), Updated(row.description, body, "description"), Updated(row.url, body, "url"),
        Updated(row.protocol, body, "protocol"), Updated(row.resourceId, body, "resourceId"), document)
  }

  /** The body of a request: a JSON `null` decodes to no document at all. */
  type Body = Option<Fields>

  function BodyFields(body: Body): Fields {
    if body.Some? then body.value else map[]
  }

  function PutRow(body: Body): Row {
    WithFields(BLANK, BodyFields(body), if body.Some? then Some(Clean(body.value)) else None)
  }

  function PatchRow(row: Row, body: Body, id: string, name: string): Row {
    var base := if row.document.Some? then row.document.value else Wire(row, id, name);
    WithFields(row, BodyFields(body), Some(Clean(Merge(base, BodyFields(body)))))
  }

  /** The backend a handler works on through a pointer. */
  class Backend {
    var title: string
    var description: string
    var url: string
    var protocol: string
    var resourceId: string
    var document: Option<Fields>

    constructor (row: Row)
      ensures State() == row
    {
      title, description, url := row.title, row.description, row.url;
      protocol, resourceId, document := row.protocol, row.resourceId, row.document;
    }

    function State(): Row
      reads this
    {
      Row(title, description, url, protocol, resourceId, document)
    }

    method ApplyPayload(body: Payload)
      modifies this
      ensures State() == Row(Or(body.title, old(title)), Or(body.description, old(description)), Or(body.url, old(url)),
                             Or(body.protocol, old(protocol)), Or(body.resourceId, old(resourceId)), old(document))
    {
      if body.title.Some? {
        title := body.title.value;
      }
      if body.description.Some? {
        description := body.description.value;
      }
      if body.url.Some? {
        url := body.url.value;
      }
      if body.protocol.Some? {
        protocol := body.protocol.value;
      }
      if body.resourceId.Some? {
        resourceId := body.resourceId.value;
      }
    }

    method ClearNulls(patch: Fields)
      modifies this
      ensures var p := Properties(patch);
              State() == Row(Cleared(p, "title", old(title)), Cleared(p, "description", old(description)),
                             Cleared(p, "url", old(url)), Cleared(p, "protocol", old(protocol)),
                             Cleared(p, "resourceId", old(resourceId)), old(document))
    {
      var properties := Properties(patch);
      if NulledOut(properties, "title") {
        title := "";
      }
      if NulledOut(properties, "description") {
        description := "";
      }
      if NulledOut(properties, "url") {
        url := "";
      }
      if NulledOut(properties, "protocol") {
        protocol := "";
      }
      if NulledOut(properties, "resourceId") {
        resourceId := "";
      }
    }

    /** The body of a PUT on a blank backend. */
    method Replace(body: Body)
      requires State() == BLANK
      modifies this
      ensures State() == PutRow(body)
    {
      document := body;
      if document.Some? {
        document := Some(Clean(document.value));
      }
      ApplyPayload(Decode(BodyFields(body)));
      ClearNulls(BodyFields(body));
    }

    /** The body of a PATCH on the stored backend: the merge runs in the document it holds. */
    method Patch(body: Body, id: string, name: string)
      modifies this
      ensures State() == PatchRow(old(State()), body, id, name)
    {
      if document.None? {
        document := Some(Wire(State(), id, name));
      }
      var merged := MergeObject(document.value, BodyFields(body));
      document := Some(Clean(merged));
      ApplyPayload(Decode(BodyFields(body)));
      ClearNulls(BodyFields(body));
    }
  }

  function Or(text: Option<string>, default: string): string {
    if text.Some? then text.value else default
  }

  function Cleared(properties: Fields, key: string, text: string): string {
    if NulledOut(properties, key) then "" else text
  }

  // --- Requests on one backend ---

  datatype Request = Put(body: Body) | Patch(body: Body) | Delete

  /** What the handler insists on before it stores: `validUrl` stands for Go's URL parser. */
  predicate Acceptable(row: Row, validUrl: string -> bool) {
    row.url != "" && validUrl(row.url) && (row.protocol == "http" || row.protocol == "soap")
  }

  function Accept(row: Row, validUrl: string -> bool, stored: Option<Row>): Option<Row> {
    if Acceptable(row, validUrl) then Some(row) else stored
  }

  /** The stored row after a request; a refused request changes nothing. */
  function After(stored: Option<Row>, request: Request, validUrl: string -> bool, id: string,
                 name: string): Option<Row> {
    match request
    case Put(body) => Accept(PutRow(body), validUrl, stored)
    case Patch(body) => if stored.None? then None else Accept(PatchRow(stored.value, body, id, name), validUrl, stored)
    case Delete => None
  }

  /** One resource of the store, and its handler. */
  class Resource {
    const id: string
    const name: string
    const validUrl: string -> bool
    var stored: Option<Row>

    constructor (id: string, name: string, validUrl: string -> bool)
      ensures stored == None
    {
      this.id, this.name, this.validUrl, stored := id, name, validUrl, None;
    }

    method Serve(request: Request)
      modifies this
      ensures stored == After(old(stored), request, validUrl, id, name)
    {
      match request {
        case Put(body) =>
          var value := new Backend(BLANK);
          value.Replace(body);
          var row := value.State();
          if Acceptable(row, validUrl) {
            stored := Some(row);
          }
        case Patch(body) =>
          if stored.None? {
            return;
          }
          var value := new Backend(stored.value);
          value.Patch(body, id, name);
          var row := value.State();
          if Acceptable(row, validUrl) {
            stored := Some(row);
          }
        case Delete =>
          stored := None;
      }
    }
  }

  // --- The two representations ---

  /** These five fields hold strings or nulls, where they are present. */
  predicate PlainFields(properties: Fields) {
    forall key | key in KEYS && key in properties :: properties[key].String? || properties[key].Null?
  }

  /** Each typed field is the document's string, or empty where the document has none or a null. */
  predicate Agrees(row: Row, document: Fields) {
    && PlainFields(Properties(document))
    && forall key | key in KEYS :: row.Get(key) == Or(Text(Properties(document), key), "")
  }

  predicate Consistent(row: Row) {
    row.document.Some? ==> Agrees(row, row.document.value)
  }

  lemma UpdatedFields(row: Row, body: Fields, document: Option<Fields>, key: string)
    requires key in KEYS
    ensures WithFields(row, body, document).Get(key) == Updated(row.Get(key), body, key)
  {
    hide Updated;
  }

  lemma CleanKeepsProperties(document: Fields)
    ensures Properties(Clean(document)) == Properties(document)
  {
  }

  /** What a body says of one field under its exact key, which the document takes, and what the decoder
      makes of it, which a typed field that held `held` takes, come to the same. */
  predicate FieldTogether(held: string, body: Fields, key: string) {
    var p := Properties(body);
    if key !in p then Or(DecodedText(body, key), held) == held
    else
      match p[key]
      case Null => true
      case String(s) => Or(DecodedText(body, key), held) == s
      case _ => false
  }

  /** A PUT LEAVES THE TWO REPRESENTATIONS TOGETHER exactly when it does so for each field. */
  lemma PutAgreesExactly(document: Fields)
    ensures Consistent(PutRow(Some(document))) <==> forall key | key in KEYS :: FieldTogether("", document, key)
  {
    hide DecodedText, Clean;
    CleanKeepsProperties(document);
    var row := PutRow(Some(document));
    forall key | key in KEYS ensures row.Get(key) == Updated("", document, key) {
      UpdatedFields(BLANK, document, row.document, key);
    }
  }

  /** The document a PATCH starts from agrees with the row, whichever kind of row it is. */
  lemma PatchBaseAgrees(row: Row, id: string, name: string)
    requires Consistent(row)
    ensures Agrees(row, if row.document.Some? then row.document.value else Wire(row, id, name))
  {
  }

  lemma MergedProperties(base: Fields, patch: Fields)
    requires "properties" in base && base["properties"].Object?
    ensures Properties(Merge(base, patch))
         == if "properties" !in patch then Properties(base)
            else if patch["properties"].Object? then Merge(Properties(base), Properties(patch))
            else map[]
  {
    if "properties" in patch && !patch["properties"].Null? {
      MergeAt(base, patch, "properties");
    }
  }

  /** A patch that says the same of every field to the document and to the decoder, given what the row
      holds; its `properties`, where there is one, is an object. */
  predicate PatchTogether(row: Row, patch: Fields) {
    && ("properties" in patch ==> patch["properties"].Object?)
    && forall key | key in KEYS :: FieldTogether(row.Get(key), patch, key)
  }

  /** A PATCH KEEPS THE TWO REPRESENTATIONS TOGETHER, when it is accepted, exactly under that condition. */
  lemma PatchAgreesExactly(row: Row, patch: Fields, id: string, name: string)
    requires Consistent(row) && row.url != "" && PatchRow(row, Some(patch), id, name).url != ""
    ensures Consistent(PatchRow(row, Some(patch), id, name)) <==> PatchTogether(row, patch)
  {
    hide Merge, Clean, Wire, DecodedText, FieldTogether, Updated;
    var base := if row.document.Some? then row.document.value else Wire(row, id, name);
    PatchBaseAgrees(row, id, name);
    assert row.Get("url") != "";
    assert "properties" in base && base["properties"].Object?;
    var merged := Merge(base, patch);
    MergedProperties(base, patch);
    CleanKeepsProperties(merged);
    var after := PatchRow(row, Some(patch), id, name);
    assert after.Get("url") != "";
    forall key | key in KEYS ensures after.Get(key) == Updated(row.Get(key), patch, key) {
      UpdatedFields(row, patch, after.document, key);
    }
    if !("properties" in patch && !patch["properties"].Object?) {
      forall key | key in KEYS ensures MergedFieldAgrees(row, base, patch, key) {
        MergedField(row, base, patch, key);
      }
    }
  }

  /** One field of the merged document against the updated typed field. */
  predicate MergedFieldAgrees(row: Row, base: Fields, patch: Fields, key: string)
    requires key in KEYS
  {
    var merged := if "properties" in patch then Merge(Properties(base), Properties(patch)) else Properties(base);
    FieldTogether(row.Get(key), patch, key) <==>
      && (key in merged ==> merged[key].String? || merged[key].Null?)
      && Updated(row.Get(key), patch, key) == Or(Text(merged, key), "")
  }

  lemma MergedField(row: Row, base: Fields, patch: Fields, key: string)
    requires key in KEYS && Agrees(row, base)
    ensures MergedFieldAgrees(row, base, patch, key)
  {
    hide DecodedText;
    var p := Properties(patch);
    if key in p && !p[key].Null? {
      MergeAt(Properties(base), p, key);
    }
  }

  /** The condition on the patch alone: `properties` is an object, of strings and nulls where it speaks of
      the five fields, and the decoder reads just those. */
  predicate SafePatch(patch: Fields) {
    var p := Properties(patch);
    && ("properties" in patch ==> patch["properties"].Object?) && PlainFields(p)
    && forall key | key in KEYS :: NulledOut(p, key) || DecodedText(patch, key) == Text(p, key)
  }

  /** A patch that no row can take, since it leaves none a url. */
  predicate EmptiesUrl(patch: Fields) {
    NulledOut(Properties(patch), "url") || DecodedText(patch, "url") == Some("")
  }

  /** WHICH PATCHES ARE SAFE ON EVERY ROW that agrees and has a url: those, and those always refused. */
  lemma PatchIsSafeExactly(patch: Fields, id: string, name: string)
    ensures (forall row | Consistent(row) && row.url != "" && PatchRow(row, Some(patch), id, name).url != "" ::
               Consistent(PatchRow(row, Some(patch), id, name))) <==> SafePatch(patch) || EmptiesUrl(patch)
  {
    hide DecodedText, PatchRow, Consistent;
    forall row ensures PatchRow(row, Some(patch), id, name).url == Updated(row.url, patch, "url") {
      PatchedUrl(row, patch, id, name);
    }
    if SafePatch(patch) {
      forall row | Consistent(row) && row.url != "" && PatchRow(row, Some(patch), id, name).url != ""
        ensures Consistent(PatchRow(row, Some(patch), id, name))
      {
        PatchAgreesExactly(row, patch, id, name);
      }
    } else if !EmptiesUrl(patch) {
      var row := UnsafeRow(patch);
      PatchAgreesExactly(row, patch, id, name);
    }
  }

  lemma PatchedUrl(row: Row, patch: Fields, id: string, name: string)
    ensures PatchRow(row, Some(patch), id, name).url == Updated(row.url, patch, "url")
  {
  }

  /** A row that holds what an unsafe patch does not say. */
  lemma UnsafeRow(patch: Fields) returns (row: Row)
    requires !SafePatch(patch) && !EmptiesUrl(patch)
    ensures Consistent(row) && row.url != "" && Updated(row.url, patch, "url") != "" && !PatchTogether(row, patch)
  {
    hide DecodedText;
    var p := Properties(patch);
    if "properties" in patch && !patch["properties"].Object? {
      row := Row("x", "x", "x", "x", "x", None);
    } else {
      var key :| key in KEYS
                 && ((key in p && !p[key].String? && !p[key].Null?)
                     || (!NulledOut(p, key) && DecodedText(patch, key) != Text(p, key)));
      var other := "x" + Or(DecodedText(patch, key), "") + Or(Text(p, key), "");
      row := Row(other, other, other, other, other, None);
      assert row.Get(key) == other;
      OtherIsApart(other, patch, key);
    }
  }

  /** A field that holds something longer than all a patch says of it. */
  lemma OtherIsApart(held: string, patch: Fields, key: string)
    requires |held| > |Or(DecodedText(patch, key), "")| && |held| > |Or(Text(Properties(patch), key), "")|
    requires !NulledOut(Properties(patch), key)
    requires (key in Properties(patch) && !Properties(patch)[key].String?)
             || DecodedText(patch, key) != Text(Properties(patch), key)
    ensures !FieldTogether(held, patch, key)
  {
    hide DecodedText;
  }

  // --- Bodies with exact keys ---

  /** A patch that speaks of the fields at all does so in an object, of strings and nulls. */
  predicate PlainPatch(patch: Fields) {
    ("properties" in patch ==> patch["properties"].Object?) && PlainFields(Properties(patch))
  }

  /** Keys are spelled exactly. */
  predicate ExactKeys(document: Fields) {
    OnlyKey(document, "properties", "properties")
    && forall key | key in KEYS :: OnlyKey(Properties(document), key, key)
  }

  lemma ExactKeysDecode(document: Fields, key: string)
    requires ExactKeys(document) && key in KEYS
    ensures var p := Properties(document);
            DecodedText(document, key) == if key in p then Assigned(None, p[key]) else None
  {
    ReadOnlyKey(document, "properties", key, key);
  }

  /** Plain patches with exact keys are safe on every row, and plain documents safe to put. */
  lemma PlainIsSafe(body: Fields)
    requires ExactKeys(body)
    ensures SafePatch(body) <==> PlainPatch(body)
    ensures PlainFields(Properties(body)) <==> forall key | key in KEYS :: FieldTogether("", body, key)
  {
    hide DecodedText, ExactKeys;
    forall key | key in KEYS
      ensures var p := Properties(body);
              DecodedText(body, key) == if key in p then Assigned(None, p[key]) else None
    {
      ExactKeysDecode(body, key);
    }
  }

  lemma SafeIsTogether(row: Row, patch: Fields)
    requires SafePatch(patch)
    ensures PatchTogether(row, patch)
  {
    hide DecodedText;
  }

  // --- Accepted requests that part the two ---

  /** A patch of one property. */
  function Only(key: string, value: Json): Fields {
    map["properties" := Object(map[key := value])]
  }

  /** What it says of a field: nothing, unless its key goes by that name. */
  lemma OnlyDecodes(key: string, value: Json, name: string)
    requires name in KEYS
    ensures DecodedText(Only(key, value), name) == if EqualFold(key, name) then Assigned(None, value) else None
  {
    if EqualFold(key, name) {
      ReadOnlyKey(Only(key, value), "properties", name, key);
    } else {
      ReadOnlyKey(Only(key, value), "properties", name, name);
    }
  }

  /** A patch of a title, however spelled, is accepted wherever the row is. */
  lemma TitleIsAccepted(row: Row, key: string, value: Json, validUrl: string -> bool, id: string, name: string)
    requires Acceptable(row, validUrl) && EqualFold(key, "title")
    ensures Acceptable(PatchRow(row, Some(Only(key, value)), id, name), validUrl)
  {
    hide DecodedText, Merge, Wire, Clean;
    var patch := Only(key, value);
    assert |ToLower(key)| == |key| && |ToLower("title")| == 5;
    assert |ToLower("url")| == 3 && |ToLower("protocol")| == 8;
    OnlyDecodes(key, value, "url");
    OnlyDecodes(key, value, "protocol");
    assert !NulledOut(Properties(patch), "url") && !NulledOut(Properties(patch), "protocol");
  }

  /** Nulling `properties` empties the document and leaves the typed fields. */
  lemma NullPropertiesSetApart(row: Row, validUrl: string -> bool, id: string, name: string)
    requires Consistent(row) && Acceptable(row, validUrl)
    ensures var after := PatchRow(row, Some(map["properties" := Null]), id, name);
            Acceptable(after, validUrl) && !Consistent(after)
  {
    hide DecodedText, Merge, Wire, Clean;
    var patch: Fields := map["properties" := Null];
    forall key | key in KEYS ensures DecodedText(patch, key) == None {
      NothingDecodes(patch, key);
    }
    PatchAgreesExactly(row, patch, id, name);
  }

  lemma NothingDecodes(document: Fields, key: string)
    requires document == map["properties" := Null]
    ensures DecodedText(document, key) == None
  {
    ReadOnlyKey(document, "properties", key, key);
  }

  /** A title that is no string: the document takes it, and the typed field is emptied. */
  lemma NumberSetsApart(row: Row, n: real, validUrl: string -> bool, id: string, name: string)
    requires Consistent(row) && Acceptable(row, validUrl)
    ensures var after := PatchRow(row, Some(Only("title", Number(n))), id, name);
            Acceptable(after, validUrl) && after.title == "" && !Consistent(after)
  {
    hide DecodedText, Merge, Wire, Clean;
    var patch := Only("title", Number(n));
    TitleIsAccepted(row, "title", Number(n), validUrl, id, name);
    OnlyDecodes("title", Number(n), "title");
    PatchAgreesExactly(row, patch, id, name);
    assert KEYS[0] == "title" && Properties(patch)["title"] == Number(n);
    assert !FieldTogether(row.Get("title"), patch, "title");
  }

  /** A title under a key in another case: the typed field takes it, and the document keeps the old one
      under its own key. */
  lemma RespelledKeySetsApart(row: Row, text: string, validUrl: string -> bool, id: string, name: string)
    requires Consistent(row) && Acceptable(row, validUrl) && row.title != text
    ensures var after := PatchRow(row, Some(Only("TITLE", String(text))), id, name);
            Acceptable(after, validUrl) && after.title == text && !Consistent(after)
  {
    hide DecodedText, Merge, Wire, Clean;
    var patch := Only("TITLE", String(text));
    assert ToLower("TITLE") == ToLower("title");
    assert "TITLE"[0] != "title"[0];
    TitleIsAccepted(row, "TITLE", String(text), validUrl, id, name);
    OnlyDecodes("TITLE", String(text), "title");
    PatchAgreesExactly(row, patch, id, name);
    assert KEYS[0] == "title" && "title" !in Properties(patch);
    assert !FieldTogether(row.Get("title"), patch, "title");
  }

  /** A PUT with its url under such a key: the row has the url, its document does not. */
  lemma RespelledPutIsApart(url: string, validUrl: string -> bool)
    requires url != "" && validUrl(url)
    ensures var body: Fields := map["properties" := Object(map["URL" := String(url), "protocol" := String("http")])];
            var row := PutRow(Some(body));
            Acceptable(row, validUrl) && row.url == url && !Consistent(row)
  {
    hide DecodedText, Clean;
    var body: Fields := map["properties" := Object(map["URL" := String(url), "protocol" := String("http")])];
    assert ToLower("URL") == ToLower("url") && |ToLower("protocol")| == 8;
    assert "URL"[0] != "url"[0] && "url" !in Properties(body);
    ReadUrlAndProtocol(body, url);
    PutAgreesExactly(body);
    assert KEYS[2] == "url" && !FieldTogether("", body, "url");
  }

  lemma ReadUrlAndProtocol(body: Fields, url: string)
    requires body == map["properties" := Object(map["URL" := String(url), "protocol" := String("http")])]
    ensures DecodedText(body, "url") == Some(url) && DecodedText(body, "protocol") == Some("http")
  {
    assert ToLower("URL") == ToLower("url") && |ToLower("protocol")| == 8 && |ToLower("url")| == 3;
    ReadOnlyKey(body, "properties", "url", "URL");
    ReadOnlyKey(body, "properties", "protocol", "protocol");
  }

  // --- Whole runs ---

  ghost predicate Accepted(stored: Option<Row>, validUrl: string -> bool) {
    stored.Some? ==> Acceptable(stored.value, validUrl)
  }

  ghost predicate Together(stored: Option<Row>) {
    stored.Some? ==> Consistent(stored.value)
  }

  /** If the request is accepted, its body says the same to the document and to the decoder. */
  ghost predicate Careful(stored: Option<Row>, request: Request, validUrl: string -> bool, id: string, name: string) {
    match request
    case Put(body) =>
      Acceptable(PutRow(body), validUrl) ==> forall key | key in KEYS :: FieldTogether("", BodyFields(body), key)
    case Patch(body) =>
      stored.Some? && Acceptable(PatchRow(stored.value, body, id, name), validUrl) ==>
        PatchTogether(stored.value, BodyFields(body))
    case Delete => true
  }

  /** The two representations agree before and after every request of the run. */
  ghost predicate AlwaysTogether(stored: Option<Row>, requests: seq<Request>, validUrl: string -> bool, id: string,
                                 name: string)
    decreases |requests|
  {
    Together(stored)
    && (requests != [] ==>
          AlwaysTogether(After(stored, requests[0], validUrl, id, name), requests[1..], validUrl, id, name))
  }

  ghost predicate AllCareful(stored: Option<Row>, requests: seq<Request>, validUrl: string -> bool, id: string,
                             name: string)
    decreases |requests|
  {
    requests != [] ==>
      && Careful(stored, requests[0], validUrl, id, name)
      && AllCareful(After(stored, requests[0], validUrl, id, name), requests[1..], validUrl, id, name)
  }

  /** EXACTLY WHICH RUNS KEEP THE TWO REPRESENTATIONS TOGETHER: those from a row where they are, in which
      every accepted request is careful. */
  lemma {:induction false} RunsAgree(stored: Option<Row>, requests: seq<Request>, validUrl: string -> bool,
                                     id: string, name: string)
    requires Accepted(stored, validUrl)
    ensures AlwaysTogether(stored, requests, validUrl, id, name) <==>
              Together(stored) && AllCareful(stored, requests, validUrl, id, name)
    decreases |requests|
  {
    hide After, Careful, Together, Accepted;
    if requests != [] && Together(stored) {
      StepAgrees(stored, requests[0], validUrl, id, name);
      RunsAgree(After(stored, requests[0], validUrl, id, name), requests[1..], validUrl, id, name);
    }
  }

  lemma StepAgrees(stored: Option<Row>, request: Request, validUrl: string -> bool, id: string, name: string)
    requires Accepted(stored, validUrl) && Together(stored)
    ensures Accepted(After(stored, request, validUrl, id, name), validUrl)
    ensures Together(After(stored, request, validUrl, id, name)) <==> Careful(stored, request, validUrl, id, name)
  {
    hide Consistent, PatchTogether, FieldTogether, PatchRow, PutRow;
    match request
    case Put(Some(document)) => PutAgreesExactly(document);
    case Put(None) => EmptyPut(validUrl);
    case Patch(body) =>
      if stored.Some? && Acceptable(PatchRow(stored.value, body, id, name), validUrl) {
        EmptyPatch(stored.value, body, id, name);
        PatchAgreesExactly(stored.value, BodyFields(body), id, name);
      }
    case Delete =>
  }

  /** A PUT of a JSON `null` is refused, since it has no url. */
  lemma EmptyPut(validUrl: string -> bool)
    ensures !Acceptable(PutRow(None), validUrl)
  {
  }

  /** A PATCH of a JSON `null` is one of the empty object. */
  lemma EmptyPatch(row: Row, body: Body, id: string, name: string)
    ensures PatchRow(row, body, id, name) == PatchRow(row, Some(BodyFields(body)), id, name)
  {
  }

  predicate PlainRequest(request: Request) {
    match request
    case Put(body) => ExactKeys(BodyFields(body)) && PlainFields(Properties(BodyFields(body)))
    case Patch(body) => ExactKeys(BodyFields(body)) && PlainPatch(BodyFields(body))
    case Delete => true
  }

  /** So over every run of plain requests with exact keys. */
  lemma {:induction false} PlainRunsAgree(stored: Option<Row>, requests: seq<Request>, validUrl: string -> bool,
                                          id: string, name: string)
    requires Accepted(stored, validUrl) && Together(stored)
    requires forall k | 0 <= k < |requests| :: PlainRequest(requests[k])
    ensures AlwaysTogether(stored, requests, validUrl, id, name)
    decreases |requests|
  {
    hide After, Careful, Together, Accepted, PlainRequest;
    if requests != [] {
      PlainIsCareful(stored, requests[0], validUrl, id, name);
      StepAgrees(stored, requests[0], validUrl, id, name);
      PlainRunsAgree(After(stored, requests[0], validUrl, id, name), requests[1..], validUrl, id, name);
    }
  }

  lemma PlainIsCareful(stored: Option<Row>, request: Request, validUrl: string -> bool, id: string, name: string)
    requires PlainRequest(request)
    ensures Careful(stored, request, validUrl, id, name)
  {
    hide SafePatch, PatchTogether, FieldTogether, PatchRow, PutRow;
    if !request.Delete? {
      PlainIsSafe(BodyFields(request.body));
      if request.Patch? && stored.Some? {
        SafeIsTogether(stored.value, BodyFields(request.body));
      }
    }
  }

  /** A PATCH acts on the wire form of a field as the merge does, where a field it removes reads as empty,
      exactly when it says the same to the document and to the decoder. */
  lemma PatchMergesWireForm(row: Row, patch: Fields, id: string, name: string, key: string)
    requires key in KEYS
    ensures var before := Properties(Wire(row, id, name));
            var after := Properties(Wire(PatchRow(row, Some(patch), id, name), id, name));
            var merged := Merge(before, Properties(patch));
            && key in after
            && (after[key] == (if key in merged then merged[key] else String("")) <==>
                  FieldTogether(row.Get(key), patch, key))
  {
    hide DecodedText, Merge, Wire;
    var before := Properties(Wire(row, id, name));
    var p := Properties(patch);
    WireField(row, id, name, key);
    var next := PatchRow(row, Some(patch), id, name);
    WireField(next, id, name, key);
    UpdatedFields(row, patch, next.document, key);
    MergedMember(before, p, key);
  }

  lemma MergedMember(before: Fields, p: Fields, key: string)
    requires key in before && before[key].String?
    ensures var merged := Merge(before, p);
            && (key in merged <==> !NulledOut(p, key))
            && (key in merged ==> merged[key] == if key in p then p[key] else before[key])
  {
    if key in p && !p[key].Null? {
      MergeAt(before, p, key);
    }
  }

  lemma WireField(row: Row, id: string, name: string, key: string)
    requires key in KEYS
    ensures var p := Properties(Wire(row, id, name)); key in p && p[key] == String(row.Get(key))
  {
  }

  // --- What is stored and shown ---

  /** The members the server sets by itself. */
  predicate Reserved(key: string) {
    key == "id" || key == "name" || key == "type" || key == "etag"
  }

  ghost predicate NothingReserved(stored: Option<Row>) {
    stored.Some? && stored.value.document.Some? ==> forall key | key in stored.value.document.value :: !Reserved(key)
  }

  /** The stored row after a run. */
  function Final(stored: Option<Row>, requests: seq<Request>, validUrl: string -> bool, id: string,
                 name: string): Option<Row>
    decreases |requests|
  {
    if requests == [] then stored
    else Final(After(stored, requests[0], validUrl, id, name), requests[1..], validUrl, id, name)
  }

  /** A STORED DOCUMENT NEVER HOLDS WHAT THE SERVER SETS, over every run from a row that does not. */
  lemma {:induction false} RunStoresNothingReserved(stored: Option<Row>, requests: seq<Request>,
                                                    validUrl: string -> bool, id: string, name: string)
    requires NothingReserved(stored)
    ensures NothingReserved(Final(stored, requests, validUrl, id, name))
    decreases |requests|
  {
    hide Merge, Wire, DecodedText;
    if requests != [] {
      RunStoresNothingReserved(After(stored, requests[0], validUrl, id, name), requests[1..], validUrl, id, name);
    }
  }

  /** A PUT, WHEN IT IS ACCEPTED, STORES EVERY OTHER MEMBER of its body as it is. */
  lemma PutStoresDocument(stored: Option<Row>, body: Fields, validUrl: string -> bool, id: string, name: string)
    ensures var after := After(stored, Put(Some(body)), validUrl, id, name);
            || after == stored
            || (after.Some? && after.value.document.Some? &&
                forall key :: && (key in after.value.document.value <==> key in body && !Reserved(key))
                              && (key in body && !Reserved(key) ==> after.value.document.value[key] == body[key]))
  {
    hide DecodedText;
  }

  /** So does a PATCH with every other member of the merged document; those the patch does not name stay. */
  lemma PatchStoresDocument(row: Row, patch: Fields, validUrl: string -> bool, id: string, name: string, key: string)
    requires row.document.Some? && !Reserved(key)
    ensures var held := row.document.value;
            var after := After(Some(row), Patch(Some(patch)), validUrl, id, name);
            after == Some(row)
            || (after.Some? && after.value.document.Some? &&
                var next := after.value.document.value;
                && (key !in patch ==> (key in next <==> key in held) && (key in held ==> next[key] == held[key]))
                && (key in patch && patch[key].Null? ==> key !in next)
                && (key in patch && !patch[key].Null? ==> key in next)
                && (key in patch && !patch[key].Null? && !patch[key].Object? ==> next[key] == patch[key]))
  {
    hide DecodedText, Merge;
    MemberOfMerge(row.document.value, patch, key);
  }

  /** AFTER A DELETE ONLY A PUT BRINGS THE RESOURCE BACK: every PATCH finds nothing. */
  lemma {:induction false} DeletedStaysAway(stored: Option<Row>, requests: seq<Request>, validUrl: string -> bool,
                                            id: string, name: string)
    requires stored.None? || (requests != [] && requests[0].Delete?)
    requires forall k | 0 <= k < |requests| :: !requests[k].Put?
    ensures Final(stored, requests, validUrl, id, name) == None
    decreases |requests|
  {
    if requests != [] {
      DeletedStaysAway(After(stored, requests[0], validUrl, id, name), requests[1..], validUrl, id, name);
    }
  }

  /** What a GET shows: the server's members, the typed fields, and otherwise the document. */
  lemma WireShows(row: Row, id: string, name: string, key: string)
    ensures var shown := Wire(row, id, name);
            var held := if row.document.Some? then row.document.value else map[];
            && "id" in shown && "name" in shown && "type" in shown && "properties" in shown
            && shown["id"] == String(id) && shown["name"] == String(name)
            && shown["type"] == String("Microsoft.ApiManagement/service/backends")
            && shown["properties"].Object?
            && (key in KEYS ==> key in Properties(shown) && Properties(shown)[key] == String(row.Get(key)))
            && (key !in KEYS ==> && (key in Properties(shown) <==> key in Properties(held))
                                 && (key in Properties(held) ==> Properties(shown)[key] == Properties(held)[key]))
            && (key !in ["id", "name", "type", "properties"] ==>
                  (key in shown <==> key in held) && (key in held ==> shown[key] == held[key]))
  {
    if key in KEYS {
      WireField(row, id, name, key);
    }
  }

  /** What a body with exact keys says of a field: its string, or nothing. */
  function Said(body: Fields, key: string): string {
    Or(Text(Properties(body), key), "")
  }

  /** WHICH PLAIN PUTS ARE STORED, and as what: just those with a valid url and one of the two protocols, and
      each field then holds what the body says of it. */
  lemma PlainPutIsStored(stored: Option<Row>, body: Fields, validUrl: string -> bool, id: string, name: string)
    requires ExactKeys(body) && PlainFields(Properties(body))
    ensures var after := After(stored, Put(Some(body)), validUrl, id, name);
            if Said(body, "url") != "" && validUrl(Said(body, "url")) && Said(body, "protocol") in ["http", "soap"]
            then after.Some? && forall key | key in KEYS :: after.value.Get(key) == Said(body, key)
            else after == stored
  {
    hide DecodedText, Clean, ExactKeys;
    var row := PutRow(Some(body));
    forall key | key in KEYS ensures row.Get(key) == Said(body, key) {
      UpdatedFields(BLANK, body, row.document, key);
      ExactKeysDecode(body, key);
    }
    assert row.url == row.Get("url") && row.protocol == row.Get("protocol");
  }

  /** What a field holds after a plain patch: what it says, emptied by a null, or as before. */
  function Told(held: string, patch: Fields, key: string): string {
    if key in Properties(patch) then Said(patch, key) else held
  }

  /** WHICH PLAIN PATCHES ARE STORED, and as what: just those that leave a valid url and one of the two
      protocols. */
  lemma PlainPatchIsStored(row: Row, patch: Fields, validUrl: string -> bool, id: string, name: string)
    requires ExactKeys(patch) && PlainPatch(patch)
    ensures var after := After(Some(row), Patch(Some(patch)), validUrl, id, name);
            var url, protocol := Told(row.url, patch, "url"), Told(row.protocol, patch, "protocol");
            if url != "" && validUrl(url) && protocol in ["http", "soap"]
            then after.Some? && forall key | key in KEYS :: after.value.Get(key) == Told(row.Get(key), patch, key)
            else after == Some(row)
  {
    hide DecodedText, Clean, ExactKeys, Merge, Wire;
    var next := PatchRow(row, Some(patch), id, name);
    forall key | key in KEYS ensures next.Get(key) == Told(row.Get(key), patch, key) {
      UpdatedFields(row, patch, next.document, key);
      ExactKeysDecode(patch, key);
    }
    assert next.url == next.Get("url") && next.protocol == next.Get("protocol");
  }
}
