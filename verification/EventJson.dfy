/**
 The JSON form of an event. Printing is not a pure observer: it moves the attachments that were not
 stored out of the list and into the event's data. JSON is taken as a value; of its text only what two
 values may share is modelled: a whole double is written with the digits of an integer, and read as one.
 */
module EventJson {
  import opened Common
  import opened AttachmentNames

  datatype Json =
    | JNull
    | JBool(b: bool)
    | JInt(n: int)
    | JReal(r: real)  // a finite double
    | JString(s: string)
    | JArray(items: seq<Json>)
    | JObject(members: map<string, Json>)

  // The members of the printed object, by their roles.
  datatype Tag =
    | EventID | Version | BenchMode | Timestamp | Timezone | UploadId | Data | Pii
    | BizTransactionId | MessageId | CorrelationId

  type Members = map<Tag, Json>

  datatype Event = Event(fields: Members, data: Json, pii: Json, attachments: seq<string>)

  // Indexing a JSON object that lacks the member gives null.
  function At(m: Members, t: Tag): Json {
    if t in m then m[t] else JNull
  }

  predicate Empty(j: Json) {
    j == JNull || j == JArray([]) || j == JObject(map[])
  }

  // --- Text -----------------------------------------------------------------------------------------------

  const TEN_TO_17: real := 100000000000000000.0

  // Seventeen significant digits and no decimal point: a whole double below 10^17 looks like an integer.
  predicate LooksWhole(r: real) {
    r.Floor as real == r && -TEN_TO_17 < r < TEN_TO_17
  }

  // The value that is read back from the text of j. Two values have the same text when this is the same.
  function Written(j: Json): Json
    decreases j
  {
    match j
    case JReal(r) => if LooksWhole(r) then JInt(r.Floor) else j
    case JArray(items) => JArray(seq(|items|, k requires 0 <= k < |items| => Written(items[k])))
    case JObject(m) => JObject(map key | key in m :: Written(m[key]))
    case _ => j
  }

  function Text(root: Members): Members {
    map t: Tag | t in root :: Written(root[t])
  }

  lemma {:induction false} WrittenTwice(j: Json)
    ensures Written(Written(j)) == Written(j)
    ensures Empty(Written(j)) == Empty(j)
    decreases j
  {
    match j
    case JReal(r) =>
    case JArray(items) =>
      forall k | 0 <= k < |items| ensures Written(Written(items[k])) == Written(items[k]) { WrittenTwice(items[k]); }
    case JObject(m) =>
      forall key | key in m ensures Written(Written(m[key])) == Written(m[key]) { WrittenTwice(m[key]); }
      assert m != map[] ==> exists key :: key in m;
      if m != map[] { var key :| key in m; assert key in Written(j).members; }
    case _ =>
  }

  // What the text changes: of all the values in a value, only doubles, and these only from one form of the
  // same number to another.
  lemma WrittenMeans(j: Json)
    ensures j.JNull? || j.JBool? || j.JInt? || j.JString? ==> Written(j) == j
    ensures j.JReal? ==> (Written(j).JInt? && Written(j).n as real == j.r) || Written(j) == j
    ensures j.JReal? ==> (Written(j).JInt? <==> j.r.Floor as real == j.r && -100000000000000000.0 < j.r < 100000000000000000.0)
    ensures j.JArray? ==> Written(j).JArray? && |Written(j).items| == |j.items|
    ensures j.JArray? ==> forall k :: 0 <= k < |j.items| ==> Written(j).items[k] == Written(j.items[k])
    ensures j.JObject? ==> Written(j).JObject? && Written(j).members.Keys == j.members.Keys
    ensures j.JObject? ==> forall key :: key in j.members ==> Written(j).members[key] == Written(j.members[key])
  {
  }

  // --- Conversions; None is the library's exception -------------------------------------------------

  const UINT64_LIMIT: nat := 0x1_0000_0000_0000_0000
  const INT_LIMIT: int := 0x8000_0000

  function IntText(n: int): string {
    if n < 0 then "-" + Decimal(-n) else Decimal(n)
  }

  // `realText` is how the library prints a double.
  function AsString(j: Json, realText: real -> string): Option<string> {
    match j
    case JNull => Some("")
    case JBool(b) => Some(if b then "true" else "false")
    case JInt(n) => Some(IntText(n))
    case JReal(r) => Some(realText(r))
    case JString(s) => Some(s)
    case _ => None
  }

  function Truncate(r: real): int {
    if r >= 0.0 then r.Floor else -(-r).Floor
  }

  function AsInteger(j: Json, low: int, limit: int): Option<int> {
    match j
    case JNull => Some(0)
    case JBool(b) => Some(if b then 1 else 0)
    case JInt(n) => if low <= n < limit then Some(n) else None
    case JReal(r) => if low as real <= r <= (limit - 1) as real then Some(Truncate(r)) else None
    case _ => None
  }

  // Every conversion to a string.
  lemma AsStringMeans(j: Json, realText: real -> string)
    ensures AsString(j, realText).None? <==> j.JArray? || j.JObject?
    ensures j.JNull? ==> AsString(j, realText) == Some("")
    ensures j.JBool? ==> AsString(j, realText) == Some(if j.b then "true" else "false")
    ensures j.JString? ==> AsString(j, realText) == Some(j.s)
    ensures j.JReal? ==> AsString(j, realText) == Some(realText(j.r))
    ensures j.JInt? && j.n >= 0 ==> ValueOf(AsString(j, realText).value) == j.n
    ensures j.JInt? && j.n < 0 ==>
      var s := AsString(j, realText).value; |s| > 1 && s[0] == '-' && s[1] != '0' && ValueOf(s[1..]) == -j.n
  {
    if j.JInt? { DecimalMeans(if j.n < 0 then -j.n else j.n); }
  }

  // Every conversion to an integer: a value in range keeps its whole part, the others do not convert.
  lemma AsIntegerMeans(j: Json, low: int, limit: int)
    requires low <= 0 < limit
    ensures j.JNull? ==> AsInteger(j, low, limit) == Some(0)
    ensures j.JBool? ==> AsInteger(j, low, limit) == Some(if j.b then 1 else 0)
    ensures j.JInt? ==> AsInteger(j, low, limit) == if low <= j.n < limit then Some(j.n) else None
    ensures j.JReal? ==> (AsInteger(j, low, limit).Some? <==> low as real <= j.r <= (limit - 1) as real)
    ensures j.JReal? && AsInteger(j, low, limit).Some? ==>
      var n := AsInteger(j, low, limit).value as real;
      if j.r >= 0.0 then n <= j.r < n + 1.0 else n - 1.0 < j.r <= n
    ensures j.JString? || j.JArray? || j.JObject? ==> AsInteger(j, low, limit) == None
  {
  }

  // --- Printing -----------------------------------------------------------------------------------------

  predicate IsStored(name: string) {
    "v3_" <= name
  }

  // The place of the first underscore, or the length when there is none.
  function Underscore(name: string): (k: nat)
    ensures k <= |name| && forall i :: 0 <= i < k ==> name[i] != '_'
    ensures k < |name| ==> name[k] == '_'
  {
    if name == "" || name[0] == '_' then 0 else 1 + Underscore(name[1..])
  }

  function KeyOf(name: string): string {
    name[..Underscore(name)]
  }

  // Files a rejected name under what comes before its first underscore; None when it has none, or when
  // the data cannot take members.
  function Extracted(data: Json, name: string): Option<Json> {
    if Underscore(name) == |name| then None
    else
      var value := JString(name[Underscore(name)..]);
      match data
      case JNull => Some(JObject(map[KeyOf(name) := value]))
      case JObject(m) => Some(JObject(m[KeyOf(name) := value]))
      case _ => None
  }

  // The names that stay in the list: the first one whatever it is, and the stored ones after it.
  function StoredNames(names: seq<string>): seq<string> {
    if names == [] then []
    else
      var earlier, last := StoredNames(names[..|names| - 1]), names[|names| - 1];
      if IsStored(last) then earlier + [last] else earlier
  }

  function Kept(names: seq<string>): seq<string> {
    if names == [] then [] else [names[0]] + StoredNames(names[1..])
  }

  // The data after the others have moved into it, in order.
  function Moved(data: Json, names: seq<string>): Option<Json> {
    if names == [] then Some(data)
    else
      var before, last := Moved(data, names[..|names| - 1]), names[|names| - 1];
      if before.None? || IsStored(last) then before else Extracted(before.value, last)
  }

  function Later(names: seq<string>): seq<string> {
    if names == [] then [] else names[1..]
  }

  function Strings(names: seq<string>): (items: seq<Json>)
    ensures |items| == |names| && forall k :: 0 <= k < |names| ==> items[k] == JString(names[k])
  {
    seq(|names|, k requires 0 <= k < |names| => JString(names[k]))
  }

  // What the printed object holds under each member, for an event whose data has already taken in the
  // rejected names.
  function PrintedAt(e: Event, bench: bool, t: Tag): Option<Json> {
    match t
    case BenchMode => if bench then Some(JInt(1)) else None
    case UploadId => if e.attachments == [] then None else Some(JArray(Strings(Kept(e.attachments))))
    case Data => Some(e.data)
    case Pii => if Empty(e.pii) then None else Some(e.pii)
    case BizTransactionId | MessageId | CorrelationId => if t in e.fields then Some(e.fields[t]) else None
    case _ => Some(At(e.fields, t))
  }

  function Root(e: Event, bench: bool): Members {
    map t: Tag | PrintedAt(e, bench, t).Some? :: PrintedAt(e, bench, t).value
  }

  function Printed(e: Event, bench: bool): Option<Members> {
    var data := Moved(e.data, Later(e.attachments));
    if data.None? then None else Some(Root(e.(data := data.value), bench))
  }

  // --- Parsing --------------------------------------------------------------------------------------------

  function Names(items: seq<Json>, realText: real -> string): Option<seq<string>> {
    if items == [] then Some([])
    else
      var s, rest := AsString(items[0], realText), Names(items[1..], realText);
      if s.None? || rest.None? then None else Some([s.value] + rest.value)
  }

  // What a field becomes when it is read back.
  function Converted(t: Tag, j: Json, realText: real -> string): Option<Json> {
    if t == Timestamp || t == Timezone then
      var n := if t == Timestamp then AsInteger(j, 0, UINT64_LIMIT) else AsInteger(j, -INT_LIMIT, INT_LIMIT);
      if n.None? then None else Some(JInt(n.value))
    else
      var s := AsString(j, realText);
      if s.None? then None else Some(JString(s.value))
  }

  predicate Optional(t: Tag) {
    t == BizTransactionId || t == MessageId || t == CorrelationId
  }

  predicate IsField(t: Tag) {
    t == Version || t == EventID || t == Timestamp || t == Timezone || Optional(t)
  }

  // The fields that parsing sets: these three always, the others when the object has them.
  predicate Taken(root: Members, t: Tag) {
    t == Version || t == EventID || t == Timestamp || ((t == Timezone || Optional(t)) && t in root)
  }

  function ListedNames(root: Members, realText: real -> string): Option<seq<string>> {
    if UploadId in root && root[UploadId].JArray? then Names(root[UploadId].items, realText) else Some([])
  }

  // One conversion of the parse throws.
  predicate Throws(root: Members, t: Tag, realText: real -> string) {
    Taken(root, t) && Converted(t, At(root, t), realText).None?
  }

  // The order in which the fields are read.
  function ReadOrder(t: Tag): nat {
    match t
    case Version => 0
    case EventID => 1
    case Timestamp => 2
    case Timezone => 3
    case BizTransactionId => 4
    case CorrelationId => 5
    case _ => 6
  }

  lemma OrdersDiffer(root: Members, t: Tag, u: Tag)
    requires IsField(t) && Taken(root, u) && ReadOrder(t) == ReadOrder(u)
    ensures t == u
  {
  }

  // The fields after the first n have been read from the root.
  function Read(fields: Members, root: Members, n: nat, realText: real -> string): Members {
    map t: Tag | (ReadOrder(t) < n && Taken(root, t)) || t in fields ::
      if ReadOrder(t) < n && Taken(root, t) && !Throws(root, t, realText) then Converted(t, At(root, t), realText).value
      else At(fields, t)
  }

  // JsonToEvent on event e.
  function Parsed(e: Event, root: Members, realText: real -> string): Option<Event> {
    var names := ListedNames(root, realText);
    if names.None? || exists t: Tag :: Throws(root, t, realText) then None
    else
      Some(Event(Read(e.fields, root, 7, realText), At(root, Data), if Pii in root then root[Pii] else e.pii, e.attachments + names.value))
  }

  // The fields read the same; only null members that are always printed may have come.
  predicate SameFields(a: Members, b: Members) {
    && (forall t :: At(a, t) == At(b, t))
    && (forall t :: Optional(t) ==> (t in a <==> t in b))
  }

  lemma SameOptional(a: Members, b: Members)
    requires SameFields(a, b)
    ensures forall t :: Optional(t) ==> (t in a <==> t in b) && (t in a ==> a[t] == b[t])
  {
    forall t | Optional(t) && t in a ensures a[t] == b[t] { assert At(a, t) == At(b, t); }
  }

  // The event as it stands once the rejected names have moved.
  function Target(e: Event): Event {
    var moved := Moved(e.data, Later(e.attachments));
    if moved.Some? then e.(data := moved.value) else e
  }

  lemma TargetPrints(e: Event, bench: bool)
    ensures Printed(e, bench) == if Moved(e.data, Later(e.attachments)).Some? then Some(Root(Target(e), bench)) else None
    ensures Target(e).fields == e.fields && Target(e).pii == e.pii && Target(e).attachments == e.attachments
    ensures var moved := Moved(e.data, Later(e.attachments)); moved.Some? ==> Target(e).data == moved.value
    ensures SameFields(e.fields, e.fields)
  {
  }

  // The printed object, member by member: what the event holds, the optional members only when it has them, and
  // the list of attachments with the first name in front.
  ghost predicate IsPrint(json: Members, fields: Members, data: Json, pii: Json, attachments: seq<string>, bench: bool) {
    && Data in json && json[Data] == data
    && EventID in json && json[EventID] == (if EventID in fields then fields[EventID] else JNull)
    && Version in json && json[Version] == (if Version in fields then fields[Version] else JNull)
    && Timestamp in json && json[Timestamp] == (if Timestamp in fields then fields[Timestamp] else JNull)
    && Timezone in json && json[Timezone] == (if Timezone in fields then fields[Timezone] else JNull)
    && (Pii in json <==> pii != JNull && pii != JArray([]) && pii != JObject(map[])) && (Pii in json ==> json[Pii] == pii)
    && (BenchMode in json <==> bench) && (bench ==> json[BenchMode] == JInt(1))
    && (BizTransactionId in json <==> BizTransactionId in fields)
    && (BizTransactionId in fields ==> json[BizTransactionId] == fields[BizTransactionId])
    && (MessageId in json <==> MessageId in fields) && (MessageId in fields ==> json[MessageId] == fields[MessageId])
    && (CorrelationId in json <==> CorrelationId in fields)
    && (CorrelationId in fields ==> json[CorrelationId] == fields[CorrelationId])
    && (UploadId in json <==> attachments != [])
    && (attachments != [] ==> json[UploadId] == JArray([JString(attachments[0])] + Strings(StoredNames(attachments[1..]))))
  }

  // Every rejected name after the first has an underscore, and if there is one the data can take members.
  ghost predicate AllMove(data: Json, attachments: seq<string>) {
    forall k :: 0 < k < |attachments| && !("v3_" <= attachments[k]) ==> '_' in attachments[k] && (data.JNull? || data.JObject?)
  }

  lemma PrintMeans(e: Event, bench: bool)
    ensures Printed(e, bench).Some? ==>
      IsPrint(Printed(e, bench).value, e.fields, Target(e).data, e.pii, e.attachments, bench)
    ensures Printed(e, bench).Some? <==> AllMove(e.data, e.attachments)
  {
    MovesExactlyWhen(e.data, Later(e.attachments));
    assert forall k :: 0 < k < |e.attachments| ==> e.attachments[k] == Later(e.attachments)[k - 1];
    assert forall k :: 0 <= k < |Later(e.attachments)| ==> Later(e.attachments)[k] == e.attachments[k + 1];
    if Printed(e, bench).Some? {
      var w := Target(e);
      assert Printed(e, bench).value == Root(w, bench);
      FieldsOfRoot(w, bench);
      RootMeans(w, bench);
    }
  }

  lemma RootMeans(w: Event, bench: bool)
    ensures IsPrint(Root(w, bench), w.fields, w.data, w.pii, w.attachments, bench)
  {
    var json := Root(w, bench);
    FieldOfRoot(w, bench, EventID);
    FieldOfRoot(w, bench, Version);
    FieldOfRoot(w, bench, Timestamp);
    FieldOfRoot(w, bench, Timezone);
    FieldOfRoot(w, bench, BizTransactionId);
    FieldOfRoot(w, bench, MessageId);
    FieldOfRoot(w, bench, CorrelationId);
    OthersOfRoot(w, bench);
    hide Root; hide Strings; hide StoredNames; hide Kept;
    if w.attachments != [] { ListWithFirst(w.attachments); }
  }

  lemma FieldOfRoot(w: Event, bench: bool, t: Tag)
    requires IsField(t)
    ensures t in Root(w, bench) <==> !Optional(t) || t in w.fields
    ensures t in Root(w, bench) ==> Root(w, bench)[t] == At(w.fields, t)
  {
    FieldsOfRoot(w, bench);
    hide Root;
  }

  lemma OthersOfRoot(w: Event, bench: bool)
    ensures var json := Root(w, bench);
      && Data in json && json[Data] == w.data
      && (Pii in json <==> !Empty(w.pii)) && (Pii in json ==> json[Pii] == w.pii)
      && (BenchMode in json <==> bench) && (bench ==> json[BenchMode] == JInt(1))
      && (UploadId in json <==> w.attachments != [])
      && (w.attachments != [] ==> json[UploadId] == JArray(Strings(Kept(w.attachments))))
  {
    FieldsOfRoot(w, bench);
    var json := Root(w, bench);
    hide Root; hide Strings; hide Kept; hide Empty;
    assert forall t: Tag :: t in json <==> PrintedAt(w, bench, t).Some?;
  }

  lemma ListWithFirst(names: seq<string>)
    requires names != []
    ensures Strings(Kept(names)) == [JString(names[0])] + Strings(StoredNames(names[1..]))
  {
    hide StoredNames;
  }

  // A parse that gets through, field by field: the named members converted, an absent one left as it was.
  ghost predicate IsParse(before: Event, root: Members, realText: real -> string, after: Event) {
    && Reads(after.fields, EventID) && AsString(At(root, EventID), realText) == Some(after.fields[EventID].s)
    && Reads(after.fields, Version) && AsString(At(root, Version), realText) == Some(after.fields[Version].s)
    && Timestamp in after.fields && after.fields[Timestamp].JInt?
    && AsInteger(At(root, Timestamp), 0, UINT64_LIMIT) == Some(after.fields[Timestamp].n)
    && (if Timezone in root
        then Timezone in after.fields && after.fields[Timezone].JInt?
             && AsInteger(root[Timezone], -INT_LIMIT, INT_LIMIT) == Some(after.fields[Timezone].n)
        else KeepsField(before.fields, after.fields, Timezone))
    && (if BizTransactionId in root
        then Reads(after.fields, BizTransactionId)
             && AsString(root[BizTransactionId], realText) == Some(after.fields[BizTransactionId].s)
        else KeepsField(before.fields, after.fields, BizTransactionId))
    && (if MessageId in root
        then Reads(after.fields, MessageId) && AsString(root[MessageId], realText) == Some(after.fields[MessageId].s)
        else KeepsField(before.fields, after.fields, MessageId))
    && (if CorrelationId in root
        then Reads(after.fields, CorrelationId) && AsString(root[CorrelationId], realText) == Some(after.fields[CorrelationId].s)
        else KeepsField(before.fields, after.fields, CorrelationId))
    && after.data == (if Data in root then root[Data] else JNull)
    && after.pii == (if Pii in root then root[Pii] else before.pii)
    && before.attachments <= after.attachments
    && (if UploadId in root && root[UploadId].JArray?
        then |after.attachments| == |before.attachments| + |root[UploadId].items|
             && forall k :: 0 <= k < |root[UploadId].items| ==>
                  AsString(root[UploadId].items[k], realText) == Some(after.attachments[|before.attachments| + k])
        else after.attachments == before.attachments)
  }

  predicate Reads(fields: Members, t: Tag) {
    t in fields && fields[t].JString?
  }

  predicate KeepsField(before: Members, after: Members, t: Tag) {
    (t in after <==> t in before) && (t in before ==> after[t] == before[t])
  }

  lemma {:induction false} NamesMeans(items: seq<Json>, realText: real -> string)
    ensures Names(items, realText).Some? <==> forall k :: 0 <= k < |items| ==> AsString(items[k], realText).Some?
    ensures Names(items, realText).Some? ==>
      && |Names(items, realText).value| == |items|
      && forall k :: 0 <= k < |items| ==> AsString(items[k], realText) == Some(Names(items, realText).value[k])
  {
    hide AsString;
    if items != [] { NamesMeans(items[1..], realText); }
  }

  lemma FieldMeans(e: Event, root: Members, realText: real -> string, t: Tag)
    requires Parsed(e, root, realText).Some? && IsField(t)
    ensures var fields := Parsed(e, root, realText).value.fields;
      if Taken(root, t) then t in fields && Converted(t, At(root, t), realText) == Some(fields[t])
      else KeepsField(e.fields, fields, t)
  {
    hide Converted;
    assert !Throws(root, t, realText);
  }

  lemma ParseMeans(e: Event, root: Members, realText: real -> string)
    ensures Parsed(e, root, realText).Some? ==> IsParse(e, root, realText, Parsed(e, root, realText).value)
  {
    if Parsed(e, root, realText).Some? {
      FieldMeans(e, root, realText, EventID);
      FieldMeans(e, root, realText, Version);
      FieldMeans(e, root, realText, Timestamp);
      FieldMeans(e, root, realText, Timezone);
      FieldMeans(e, root, realText, BizTransactionId);
      FieldMeans(e, root, realText, MessageId);
      FieldMeans(e, root, realText, CorrelationId);
      if UploadId in root && root[UploadId].JArray? { NamesMeans(root[UploadId].items, realText); }
      hide Read; hide Throws; hide AsString; hide AsInteger; hide Names;
    }
  }

  // A parse raises exactly when one of the members it converts does not convert.
  lemma RaisesMeans(e: Event, root: Members, realText: real -> string)
    ensures Parsed(e, root, realText).Some? <==>
      && AsString(At(root, EventID), realText).Some? && AsString(At(root, Version), realText).Some?
      && AsInteger(At(root, Timestamp), 0, UINT64_LIMIT).Some?
      && (Timezone in root ==> AsInteger(root[Timezone], -INT_LIMIT, INT_LIMIT).Some?)
      && (BizTransactionId in root ==> AsString(root[BizTransactionId], realText).Some?)
      && (MessageId in root ==> AsString(root[MessageId], realText).Some?)
      && (CorrelationId in root ==> AsString(root[CorrelationId], realText).Some?)
      && (UploadId in root && root[UploadId].JArray? ==>
            forall k :: 0 <= k < |root[UploadId].items| ==> AsString(root[UploadId].items[k], realText).Some?)
  {
    if UploadId in root && root[UploadId].JArray? { NamesMeans(root[UploadId].items, realText); }
    hide AsString; hide AsInteger; hide Names; hide Read;
    assert Throws(root, EventID, realText) <==> AsString(At(root, EventID), realText).None?;
    assert Throws(root, Version, realText) <==> AsString(At(root, Version), realText).None?;
    assert Throws(root, Timestamp, realText) <==> AsInteger(At(root, Timestamp), 0, UINT64_LIMIT).None?;
    assert Throws(root, Timezone, realText) <==> Timezone in root && AsInteger(root[Timezone], -INT_LIMIT, INT_LIMIT).None?;
    assert Throws(root, BizTransactionId, realText) <==> BizTransactionId in root && AsString(root[BizTransactionId], realText).None?;
    assert Throws(root, MessageId, realText) <==> MessageId in root && AsString(root[MessageId], realText).None?;
    assert Throws(root, CorrelationId, realText) <==> CorrelationId in root && AsString(root[CorrelationId], realText).None?;
    NothingElseThrows(root, realText);
  }

  ghost predicate FirstUnderscore(name: string, k: int) {
    0 <= k < |name| && name[k] == '_' && '_' !in name[..k]
  }

  // The data has taken in one member with an error text, in place of any it had under that key.
  ghost predicate IsFiling(before: Json, key: string, text: string, after: Json) {
    && after.JObject? && key in after.members && after.members[key] == JString(text)
    && after.members - {key} == (if before.JObject? then before.members - {key} else map[])
  }

  /** The event object: printing and parsing change its fields in place. */
  class CIgniteEvent {
    var fields: Members
    var data: Json
    var pii: Json
    var attachments: seq<string>

    function Value(): Event
      reads this
    {
      Event(fields, data, pii, attachments)
    }

    // The default constructor; the clock and the time zone are given.
    constructor (now: Json, zone: int)
      ensures Value() == Event(map[Timestamp := now, Timezone := JInt(zone)], JObject(map[]), JObject(map[]), [])
    {
      fields := map[Timestamp := now, Timezone := JInt(zone)];
      data, pii, attachments := JObject(map[]), JObject(map[]), [];
    }

    // Non-const indexing: a missing member is created as null.
    method Field(t: Tag, ghost first: Members) returns (j: Json)
      requires SameFields(fields, first) && !Optional(t)
      modifies this`fields
      ensures j == At(first, t) && SameFields(fields, first)
    {
      if t !in fields { fields := fields[t := JNull]; }
      j := fields[t];
      assert fields == old(fields)[t := j] && j == At(old(fields), t);
    }

    method ExtractName(name: string) returns (ok: bool)
      modifies this`data
      ensures ok == Extracted(old(data), name).Some?
      ensures data == if ok then Extracted(old(data), name).value else old(data)
      ensures ok <==> '_' in name && (old(data).JNull? || old(data).JObject?)
      ensures ok ==> exists k :: FirstUnderscore(name, k) && IsFiling(old(data), name[..k], name[k..], data)
    {
      var k := Underscore(name);
      if k == |name| || !(data.JNull? || data.JObject?) {
        return false;
      }
      var members := if data.JNull? then map[] else data.members;
      data := JObject(members[name[..k] := JString(name[k..])]);
      assert FirstUnderscore(name, k) && IsFiling(old(data), name[..k], name[k..], data);
      return true;
    }

    // The names that stay in the list; the others move into the data. None is an exception out of
    // ExtractName, after the rejected names before it have already moved.
    method ListAttachments() returns (list: Option<seq<string>>)
      requires attachments != []
      modifies this`data
      ensures list.Some? == Moved(old(data), Later(attachments)).Some?
      ensures list.Some? ==> list.value == Kept(attachments) && Moved(old(data), Later(attachments)) == Some(data)
      ensures list.Some? ==> list.value != [] && list.value[0] == attachments[0]
    {
      hide Moved; hide StoredNames; hide Extracted;
      var names := [attachments[0]];
      var rest := attachments[1..];
      StagesEmpty(data);
      for k := 0 to |rest|
        invariant names == [attachments[0]] + StoredNames(rest[..k])
        invariant Moved(old(data), rest[..k]) == Some(data)
      {
        StagesNext(old(data), rest, k);
        var name := rest[k];
        if "v3_" <= name {
          names := names + [name];
        } else {
          var ok := ExtractName(name);
          if !ok {
            StuckStaysStuck(old(data), rest, k + 1);
            return None;
          }
        }
      }
      assert rest[..|rest|] == rest;
      return Some(names);
    }

    // Sets a member of the object being built, when there is something to set.
    static method Put(root: Members, t: Tag, j: Option<Json>, ghost e: Event, ghost bench: bool) returns (r: Members)
      requires Agrees(root, e, bench, PrintOrder(t)) && j == PrintedAt(e, bench, t)
      ensures Agrees(r, e, bench, PrintOrder(t) + 1)
    {
      hide PrintedAt;
      r := if j.Some? then root[t := j.value] else root;
    }

    // The members printed before the attachments.
    method PutFirst(ghost e: Event, bench: bool) returns (root: Members)
      requires SameFields(fields, e.fields)
      modifies this`fields
      ensures Agrees(root, e, bench, PrintOrder(UploadId)) && SameFields(fields, e.fields)
    {
      StartsEmpty(e, bench);
      hide Agrees; hide At; hide SameFields; hide Kept; hide Strings; hide Empty;
      var id := Field(EventID, e.fields);
      root := Put(map[], EventID, Some(id), e, bench);
      var version := Field(Version, e.fields);
      root := Put(root, Version, Some(version), e, bench);
      root := Put(root, BenchMode, if bench then Some(JInt(1)) else None, e, bench);
      var time := Field(Timestamp, e.fields);
      root := Put(root, Timestamp, Some(time), e, bench);
    }

    // The members printed after the data.
    method PutRest(built: Members, ghost e: Event, ghost bench: bool) returns (root: Members)
      requires Agrees(built, e, bench, PrintOrder(Pii)) && pii == e.pii && SameFields(fields, e.fields)
      modifies this`fields
      ensures Agrees(root, e, bench, 11) && SameFields(fields, e.fields)
    {
      hide Agrees; hide At; hide SameFields; hide Kept; hide Strings; hide Empty;
      root := Put(built, Pii, if Empty(pii) then None else Some(pii), e, bench);
      var zone := Field(Timezone, e.fields);
      root := Put(root, Timezone, Some(zone), e, bench);
      SameOptional(fields, e.fields);
      root := Put(root, BizTransactionId, if BizTransactionId in fields then Some(fields[BizTransactionId]) else None, e, bench);
      root := Put(root, MessageId, if MessageId in fields then Some(fields[MessageId]) else None, e, bench);
      root := Put(root, CorrelationId, if CorrelationId in fields then Some(fields[CorrelationId]) else None, e, bench);
    }

    method EventToJson(bench: bool) returns (json: Option<Members>)
      modifies this`fields, this`data
      ensures json == Printed(old(Value()), bench)
      ensures json.Some? ==> Moved(old(data), Later(attachments)) == Some(data)
      ensures json.Some? ==> IsPrint(json.value, old(fields), data, pii, attachments, bench)
      ensures json.Some? <==> AllMove(old(data), attachments)
      ensures attachments == [] ==> data == old(data)
      ensures SameFields(fields, old(fields))
    {
      PrintMeans(Value(), bench);
      hide IsPrint; hide AllMove;
      hide Moved; hide Kept; hide Empty; hide Strings; hide Root; hide Agrees;
      StagesEmpty(data);
      ghost var e := Target(Value());
      TargetPrints(Value(), bench);
      hide At; hide SameFields; hide Target; hide Printed;
      var root := PutFirst(e, bench);
      var uploads := None;
      if attachments != [] {
        var list := ListAttachments();
        if list.None? { return None; }
        uploads := Some(JArray(Strings(list.value)));
      }
      root := Put(root, UploadId, uploads, e, bench);
      root := Put(root, Data, Some(data), e, bench);
      root := PutRest(root, e, bench);
      FullyGrown(root, e, bench);
      return Some(root);
    }

    // Sets field t from the root, if parsing sets it at all; false is an exception out of the conversion.
    method TakeField(root: Members, t: Tag, realText: real -> string, ghost first: Members)
      returns (ok: bool)
      requires IsField(t)
      requires fields == Read(first, root, ReadOrder(t), realText)
      modifies this`fields
      ensures ok == !Throws(root, t, realText)
      ensures ok ==> fields == Read(first, root, ReadOrder(t) + 1, realText)
    {
      if Taken(root, t) {
        var j := Converted(t, At(root, t), realText);
        if j.None? { return false; }
        fields := fields[t := j.value];
      }
      ReadNext(first, root, t, realText);
      return true;
    }

    // Appends the listed names; false is an exception out of a conversion.
    method TakeNames(items: seq<Json>, realText: real -> string) returns (ok: bool)
      modifies this`attachments
      ensures ok == Names(items, realText).Some?
      ensures ok ==> attachments == old(attachments) + Names(items, realText).value
    {
      ghost var taken := [];
      for i := 0 to |items|
        invariant attachments == old(attachments) + taken
        invariant Names(items[..i], realText) == Some(taken)
      {
        NamesNext(items, i, realText);
        var s := AsString(items[i], realText);
        if s.None? {
          NamesStuck(items, i, realText);
          return false;
        }
        attachments := attachments + [s.value];
        taken := taken + [s.value];
      }
      assert items[..|items|] == items;
      return true;
    }

    // False is an exception out of a conversion, which leaves what was read before it changed.
    method JsonToEvent(root: Members, realText: real -> string) returns (ok: bool)
      modifies this
      ensures ok == Parsed(old(Value()), root, realText).Some?
      ensures ok ==> Some(Value()) == Parsed(old(Value()), root, realText)
      ensures ok ==> IsParse(old(Value()), root, realText, Value())
    {
      ParseMeans(Value(), root, realText);
      hide IsParse; hide Names; hide Throws; hide Taken; hide Read;
      ghost var first := fields;
      NothingRead(first, root, realText);
      ok := TakeField(root, Version, realText, first);
      if !ok { return false; }
      ok := TakeField(root, EventID, realText, first);
      if !ok { return false; }
      ok := TakeField(root, Timestamp, realText, first);
      if !ok { return false; }
      ok := TakeField(root, Timezone, realText, first);
      if !ok { return false; }
      if UploadId in root && root[UploadId].JArray? {
        ok := TakeNames(root[UploadId].items, realText);
        if !ok { return false; }
      }
      data := At(root, Data);
      if Pii in root { pii := root[Pii]; }
      ok := TakeField(root, BizTransactionId, realText, first);
      if !ok { return false; }
      ok := TakeField(root, CorrelationId, realText, first);
      if !ok { return false; }
      ok := TakeField(root, MessageId, realText, first);
      if !ok { return false; }
      NothingElseThrows(root, realText);
      assert attachments == old(attachments) + ListedNames(root, realText).value;
    }
  }

  lemma ReadNext(first: Members, root: Members, t: Tag, realText: real -> string)
    requires IsField(t) && !Throws(root, t, realText)
    ensures var before := Read(first, root, ReadOrder(t), realText);
      Read(first, root, ReadOrder(t) + 1, realText)
        == if Taken(root, t) then before[t := Converted(t, At(root, t), realText).value] else before
  {
    hide Converted; hide Taken; hide ReadOrder; hide IsField; hide At; hide Throws;
    forall u: Tag | Taken(root, u) && ReadOrder(u) == ReadOrder(t) ensures u == t { OrdersDiffer(root, t, u); }
  }

  lemma NothingRead(fields: Members, root: Members, realText: real -> string)
    ensures Read(fields, root, 0, realText) == fields
  {
  }

  lemma NothingElseThrows(root: Members, realText: real -> string)
    ensures forall t: Tag :: Throws(root, t, realText) ==>
      t in {Version, EventID, Timestamp, Timezone, BizTransactionId, CorrelationId, MessageId}
  {
  }

  lemma {:induction false} NamesAppend(a: seq<Json>, b: seq<Json>, realText: real -> string)
    ensures var x, y := Names(a, realText), Names(b, realText);
      Names(a + b, realText) == if x.None? || y.None? then None else Some(x.value + y.value)
  {
    if a == [] {
      assert a + b == b;
      var y := Names(b, realText);
      assert y.Some? ==> [] + y.value == y.value;
    } else {
      NamesAppend(a[1..], b, realText);
      assert (a + b)[1..] == a[1..] + b;
      assert (a + b)[0] == a[0];
      var s, x, y := AsString(a[0], realText), Names(a[1..], realText), Names(b, realText);
      if s.Some? && x.Some? && y.Some? {
        assert [s.value] + (x.value + y.value) == [s.value] + x.value + y.value;
      }
    }
  }

  lemma NamesNext(items: seq<Json>, i: nat, realText: real -> string)
    requires i < |items| && Names(items[..i], realText).Some?
    ensures AsString(items[i], realText).Some? ==>
      Names(items[..i + 1], realText)
        == Some(Names(items[..i], realText).value + [AsString(items[i], realText).value])
  {
    NamesAppend(items[..i], [items[i]], realText);
    assert items[..i + 1] == items[..i] + [items[i]];
    var s := AsString(items[i], realText);
    assert [items[i]][1..] == [];
    assert s.Some? ==> [s.value] + [] == [s.value];
  }

  lemma NamesStuck(items: seq<Json>, i: nat, realText: real -> string)
    requires i < |items| && AsString(items[i], realText).None?
    ensures Names(items, realText).None?
  {
    NamesAppend(items[..i], items[i..], realText);
    assert items[..i] + items[i..] == items;
  }

  // The order in which the members are printed.
  function PrintOrder(t: Tag): nat {
    match t
    case EventID => 0
    case Version => 1
    case BenchMode => 2
    case Timestamp => 3
    case UploadId => 4
    case Data => 5
    case Pii => 6
    case Timezone => 7
    case BizTransactionId => 8
    case MessageId => 9
    case CorrelationId => 10
  }

  // The object being built holds the first n members of the finished one.
  predicate Agrees(root: Members, e: Event, bench: bool, n: nat) {
    forall t: Tag ::
      (if t in root then Some(root[t]) else None) == (if PrintOrder(t) < n then PrintedAt(e, bench, t) else None)
  }

  lemma StartsEmpty(e: Event, bench: bool)
    ensures Agrees(map[], e, bench, 0)
  {
  }

  lemma FullyGrown(root: Members, e: Event, bench: bool)
    requires Agrees(root, e, bench, 11)
    ensures root == Root(e, bench)
  {
    hide PrintedAt;
  }

  lemma StagesEmpty(data: Json)
    ensures Moved(data, []) == Some(data) && StoredNames([]) == []
  {
  }

  lemma StagesNext(data: Json, names: seq<string>, k: nat)
    requires k < |names|
    ensures StoredNames(names[..k + 1]) == StoredNames(names[..k]) + if IsStored(names[k]) then [names[k]] else []
    ensures var before := Moved(data, names[..k]);
      Moved(data, names[..k + 1])
        == if before.None? || IsStored(names[k]) then before else Extracted(before.value, names[k])
  {
    assert names[..k + 1][..k] == names[..k];
  }

  lemma {:induction false} StuckStaysStuck(data: Json, names: seq<string>, k: nat)
    requires k <= |names| && Moved(data, names[..k]).None?
    ensures Moved(data, names).None?
    decreases |names|
  {
    if k == |names| {
      assert names[..k] == names;
    } else {
      assert names[..|names| - 1][..k] == names[..k];
      StuckStaysStuck(data, names[..|names| - 1], k);
    }
  }

  // --- What printing does to the attachments --------------------------------------------------------

  predicate AllStored(names: seq<string>) {
    forall k :: 0 <= k < |names| ==> IsStored(names[k])
  }

  lemma {:induction false} StoredNamesAreStored(names: seq<string>)
    ensures forall k :: 0 <= k < |StoredNames(names)| ==> "v3_" <= StoredNames(names)[k]
    ensures AllStored(names) ==> StoredNames(names) == names
  {
    assert forall s: string :: IsStored(s) <==> "v3_" <= s;
    hide IsStored;
    if names != [] {
      var earlier, last := names[..|names| - 1], names[|names| - 1];
      StoredNamesAreStored(earlier);
      assert names == earlier + [last];
      assert AllStored(names) ==> AllStored(earlier) && IsStored(last) by {
        assert forall k :: 0 <= k < |earlier| ==> earlier[k] == names[k];
      }
      assert StoredNames(names) == StoredNames(earlier) + if IsStored(last) then [last] else [];
    }
  }

  // The stored names of one part of the list come before those of the next.
  lemma {:induction false} StoredNamesInOrder(a: seq<string>, b: seq<string>)
    ensures StoredNames(a + b) == StoredNames(a) + StoredNames(b)
  {
    hide IsStored;
    if b == [] {
      assert a + b == a;
    } else {
      var n := |b| - 1;
      StoredNamesInOrder(a, b[..n]);
      assert (a + b)[..|a + b| - 1] == a + b[..n];
      var more := if IsStored(b[n]) then [b[n]] else [];
      assert StoredNames(a) + (StoredNames(b[..n]) + more) == StoredNames(a) + StoredNames(b[..n]) + more;
    }
  }

  // None of them is lost or repeated, and no others are kept.
  lemma {:induction false} StoredNamesKeptOnce(names: seq<string>, s: string)
    ensures multiset(StoredNames(names))[s] == if "v3_" <= s then multiset(names)[s] else 0
  {
    assert forall t: string :: IsStored(t) <==> "v3_" <= t;
    hide IsStored;
    if names != [] {
      var n := |names| - 1;
      StoredNamesKeptOnce(names[..n], s);
      assert names == names[..n] + [names[n]];
    }
  }

  // Printing what was kept keeps it again and moves nothing.
  lemma KeptStays(names: seq<string>, data: Json)
    ensures Kept(Kept(names)) == Kept(names)
    ensures Moved(data, Later(Kept(names))) == Some(data)
  {
    if names != [] {
      StoredNamesAreStored(names[1..]);
      var kept := StoredNames(names[1..]);
      assert Later(Kept(names)) == kept;
      StoredNamesAreStored(kept);
      NothingMoves(data, kept);
    } else {
      assert Kept(names) == [];
    }
  }

  lemma {:induction false} NothingMoves(data: Json, names: seq<string>)
    requires AllStored(names)
    ensures Moved(data, names) == Some(data)
  {
    if names != [] { NothingMoves(data, names[..|names| - 1]); }
  }

  function MembersOf(j: Json): map<string, Json> {
    if j.JObject? then j.members else map[]
  }

  // The last rejected name filed under a key.
  predicate LastUnder(names: seq<string>, k: int) {
    0 <= k < |names| && !IsStored(names[k])
      && forall j :: k < j < |names| && !IsStored(names[j]) ==> KeyOf(names[j]) != KeyOf(names[k])
  }

  function MemberAt(j: Json, key: string): Option<Json> {
    if key in MembersOf(j) then Some(MembersOf(j)[key]) else None
  }

  // Each rejected name ends up in the data, its error text under the part before its first underscore;
  // a later one with the same key replaces it.
  lemma {:induction false} RejectedIsFiled(data: Json, names: seq<string>, k: nat)
    requires Moved(data, names).Some? && LastUnder(names, k)
    ensures var u := Underscore(names[k]);
      MemberAt(Moved(data, names).value, names[k][..u]) == Some(JString(names[k][u..]))
  {
    var n := |names| - 1;
    var earlier := names[..n];
    assert IsStored(names[n]) || n == k || KeyOf(names[n]) != KeyOf(names[k]);
    if k < n {
      assert forall j :: 0 <= j < n ==> earlier[j] == names[j];
      RejectedIsFiled(data, earlier, k);
    }
  }

  // Every other member of the data is left alone.
  lemma {:induction false} OthersAreLeft(data: Json, names: seq<string>, key: string)
    requires Moved(data, names).Some?
    requires forall k :: 0 <= k < |names| && !IsStored(names[k]) ==> KeyOf(names[k]) != key
    ensures MemberAt(Moved(data, names).value, key) == MemberAt(data, key)
  {
    if names != [] {
      var n := |names| - 1;
      var earlier := names[..n];
      assert IsStored(names[n]) || KeyOf(names[n]) != key;
      assert forall j :: 0 <= j < n ==> earlier[j] == names[j];
      OthersAreLeft(data, earlier, key);
    }
  }

  // They all move exactly when each of them has an underscore and the data can take members; otherwise printing raises.
  lemma {:induction false} MovesExactlyWhen(data: Json, names: seq<string>)
    ensures Moved(data, names).Some? <==>
      forall k :: 0 <= k < |names| && !("v3_" <= names[k]) ==> '_' in names[k] && (data.JNull? || data.JObject?)
    ensures Moved(data, names).Some? && Moved(data, names).value != data ==>
      Moved(data, names).value.JObject? && (data.JNull? || data.JObject?)
  {
    if names != [] {
      var n := |names| - 1;
      var earlier, last := names[..n], names[n];
      MovesExactlyWhen(data, earlier);
      assert forall k :: 0 <= k < n ==> names[k] == earlier[k];
      assert '_' in last <==> Underscore(last) < |last|;
    }
  }

  // All the rejected names, each under its key.
  function Filed(names: seq<string>): map<string, Json> {
    if names == [] then map[]
    else
      var before, last := Filed(names[..|names| - 1]), names[|names| - 1];
      if IsStored(last) then before else before[KeyOf(last) := JString(last[Underscore(last)..])]
  }

  lemma {:induction false} MovedMerges(data: Json, names: seq<string>)
    requires Moved(data, names).Some?
    ensures Moved(data, names).value == if AllStored(names) then data else JObject(MembersOf(data) + Filed(names))
    ensures AllStored(names) ==> Filed(names) == map[]
  {
    if names != [] {
      var n := |names| - 1;
      var earlier, last := names[..n], names[n];
      MovedMerges(data, earlier);
      assert AllStored(names) <==> AllStored(earlier) && IsStored(last) by { assert names == earlier + [last]; }
      if !IsStored(last) {
        assert Filed(names) == Filed(earlier)[KeyOf(last) := JString(last[Underscore(last)..])];
        assert MembersOf(data) + Filed(names)
          == (MembersOf(data) + Filed(earlier))[KeyOf(last) := JString(last[Underscore(last)..])];
        assert AllStored(earlier) ==> MembersOf(data) + Filed(earlier) == MembersOf(data);
      }
    }
  }

  // Names that move into one value's members also move into any object's.
  lemma {:induction false} MovesIntoObject(data: Json, m: map<string, Json>, names: seq<string>)
    requires Moved(data, names).Some?
    ensures Moved(JObject(m), names).Some? && Moved(JObject(m), names).value.JObject?
  {
    if names != [] { MovesIntoObject(data, m, names[..|names| - 1]); }
  }

  /** Printing reaches a normal form at once: the attachments it moved stay in the list it reads, yet an
      event that has been printed prints the same again and is not changed any further. */
  lemma PrintedAgain(e: Event, bench: bool)
    requires Printed(e, bench).Some?
    ensures Moved(Target(e).data, Later(e.attachments)) == Some(Target(e).data)
    ensures Printed(Target(e), bench) == Printed(e, bench)
  {
    var names := Later(e.attachments);
    var moved := Moved(e.data, names).value;
    MovedMerges(e.data, names);
    if AllStored(names) {
      NothingMoves(moved, names);
    } else {
      MovesIntoObject(e.data, moved.members, names);
      MovedMerges(moved, names);
      assert moved.members + Filed(names) == moved.members;
    }
  }

  // --- Printing, parsing, printing ----------------------------------------------------------------------

  // The types parsing converts to.
  predicate HasType(t: Tag, j: Json) {
    if t == Timestamp then j.JInt? && 0 <= j.n < UINT64_LIMIT
    else if t == Timezone then j.JInt? && -INT_LIMIT <= j.n < INT_LIMIT
    else j.JString?
  }

  // Event id and version are strings, timestamp and time zone integers in range, and so on.
  predicate FieldsTyped(e: Event) {
    && HasType(EventID, At(e.fields, EventID))
    && HasType(Version, At(e.fields, Version))
    && HasType(Timestamp, At(e.fields, Timestamp))
    && HasType(Timezone, At(e.fields, Timezone))
    && forall t :: Optional(t) && t in e.fields ==> HasType(t, e.fields[t])
  }

  // The event whose values are those its text is read back as.
  function AsWritten(e: Event): Event {
    Event(map t: Tag | t in e.fields :: Written(e.fields[t]), Written(e.data), Written(e.pii), e.attachments)
  }

  // The same, as far as the text shows.
  predicate WellTyped(e: Event) {
    FieldsTyped(AsWritten(e))
  }

  // An event new from the default constructor.
  predicate IsFresh(f: Event) {
    f.fields.Keys == {Timestamp, Timezone} && f.data == JObject(map[]) && f.pii == JObject(map[]) && f.attachments == []
  }

  // Print, parse the text into a new event, print again.
  function Reprinted(e: Event, blank: Event, bench: bool, realText: real -> string): Option<Members> {
    var root := Printed(e, bench);
    if root.None? then None
    else
      var back := Parsed(blank, Text(root.value), realText);
      if back.None? then None else Printed(back.value, bench)
  }

  // Two printed objects have the same text.
  predicate SameText(a: Option<Members>, b: Option<Members>) {
    if a.Some? && b.Some? then Text(a.value) == Text(b.value) else a == b
  }

  lemma PrintedAsWritten(e: Event, bench: bool, t: Tag)
    ensures var j := PrintedAt(e, bench, t);
      PrintedAt(AsWritten(e), bench, t) == if j.None? then None else Some(Written(j.value))
  {
    WrittenTwice(e.pii);
    StringsAsWritten(Kept(e.attachments));
    hide Kept; hide Strings; hide Empty;
  }

  lemma TextOfRoot(e: Event, bench: bool)
    ensures Text(Root(e, bench)) == Root(AsWritten(e), bench)
  {
    forall t: Tag ensures var j := PrintedAt(e, bench, t);
      PrintedAt(AsWritten(e), bench, t) == if j.None? then None else Some(Written(j.value))
    {
      PrintedAsWritten(e, bench, t);
    }
    hide PrintedAt; hide Written; hide AsWritten;
    assert forall t: Tag :: t in Root(AsWritten(e), bench) <==> t in Text(Root(e, bench));
  }

  lemma StringsAsWritten(names: seq<string>)
    ensures Written(JArray(Strings(names))) == JArray(Strings(names))
  {
    assert Written(JArray(Strings(names))).items == Strings(names);
  }

  lemma ConvertsToItself(t: Tag, j: Json, realText: real -> string)
    ensures Converted(t, j, realText) == Some(j) <==> HasType(t, j)
  {
  }

  lemma {:induction false} NamesOfStrings(names: seq<string>, realText: real -> string)
    ensures Names(Strings(names), realText) == Some(names)
  {
    if names != [] {
      NamesOfStrings(names[1..], realText);
      assert Strings(names)[1..] == Strings(names[1..]);
      assert [names[0]] + names[1..] == names;
    } else {
      assert Strings(names) == [];
    }
  }

  lemma SameRoots(a: Event, b: Event, bench: bool)
    ensures Root(a, bench) == Root(b, bench) <==> forall t: Tag :: PrintedAt(a, bench, t) == PrintedAt(b, bench, t)
  {
    hide PrintedAt;
    var r, q := Root(a, bench), Root(b, bench);
    if r == q {
      forall t: Tag ensures PrintedAt(a, bench, t) == PrintedAt(b, bench, t) {
        assert t in r <==> t in q;
      }
    }
  }

  lemma FieldsOfRoot(e: Event, bench: bool)
    ensures var r := Root(e, bench);
      forall t: Tag :: PrintedAt(e, bench, t) == if t in r then Some(r[t]) else None
  {
    hide PrintedAt;
  }

  // Of a printed object, the fields come back converted.
  lemma FieldComesBack(e: Event, blank: Event, bench: bool, realText: real -> string, t: Tag)
    requires IsFresh(blank) && Parsed(blank, Root(e, bench), realText).Some? && IsField(t)
    ensures var root, back := Root(e, bench), Parsed(blank, Root(e, bench), realText).value;
      PrintedAt(back, bench, t) == if t in root then Converted(t, At(root, t), realText) else None
  {
    var root := Root(e, bench);
    FieldsOfRoot(e, bench);
    assert PrintedAt(e, bench, t).Some? || Optional(t);
    ParsedField(blank, root, realText, t);
    hide Root; hide Kept; hide Strings; hide Converted; hide Empty; hide Parsed;
  }

  lemma ParsedField(blank: Event, root: Members, realText: real -> string, t: Tag)
    requires IsFresh(blank) && Parsed(blank, root, realText).Some? && IsField(t) && (t in root || Optional(t))
    ensures var fields := Parsed(blank, root, realText).value.fields;
      && (t in fields <==> t in root)
      && (t in root ==> Converted(t, At(root, t), realText) == Some(fields[t]))
  {
    hide Converted;
    assert !Throws(root, t, realText);
  }

  // Everything else comes back as it was.
  lemma RestComesBack(e: Event, blank: Event, bench: bool, realText: real -> string, t: Tag)
    requires IsFresh(blank) && Parsed(blank, Root(e, bench), realText).Some? && !IsField(t)
    ensures PrintedAt(Parsed(blank, Root(e, bench), realText).value, bench, t) == PrintedAt(e, bench, t)
  {
    var root := Root(e, bench);
    FieldsOfRoot(e, bench);
    ListComesBack(e, bench, realText);
    KeptStays(e.attachments, e.data);
    hide ListedNames; hide Strings; hide Converted; hide Root; hide StoredNames; hide Read; hide Throws;
    var back := Parsed(blank, root, realText).value;
    assert back.attachments == Kept(e.attachments);
    assert PrintedAt(e, bench, Data) == Some(e.data);
    assert PrintedAt(e, bench, Pii) == if Pii in root then Some(root[Pii]) else None;
  }

  lemma ListComesBack(e: Event, bench: bool, realText: real -> string)
    ensures ListedNames(Root(e, bench), realText) == Some(Kept(e.attachments))
  {
    FieldsOfRoot(e, bench);
    assert PrintedAt(e, bench, UploadId).Some? <==> e.attachments != [];
    NamesOfStrings(Kept(e.attachments), realText);
  }

  // A field of the printed object is kept by its conversion exactly when it has the type.
  lemma TypedFields(e: Event, bench: bool, realText: real -> string)
    ensures FieldsTyped(e) <==> forall t: Tag :: IsField(t) && t in Root(e, bench) ==> Keeps(Root(e, bench), t, realText)
  {
    var root := Root(e, bench);
    FieldsOfRoot(e, bench);
    forall t: Tag | IsField(t) && t in root
      ensures At(root, t) == At(e.fields, t) && (Keeps(root, t, realText) <==> HasType(t, At(e.fields, t)))
    {
      assert PrintedAt(e, bench, t) == Some(root[t]);
      ConvertsToItself(t, At(root, t), realText);
    }
    hide Root; hide Converted; hide HasType; hide Keeps;
    assert forall t :: IsField(t) ==> PrintedAt(e, bench, t) == (if Optional(t) && t !in e.fields then None else Some(At(e.fields, t)));
  }

  predicate Keeps(root: Members, t: Tag, realText: real -> string) {
    Converted(t, At(root, t), realText) == Some(At(root, t))
  }

  // When parsing gets through, the same object is printed again exactly when every conversion keeps its field.
  lemma ComesBackSame(e: Event, blank: Event, bench: bool, realText: real -> string)
    requires IsFresh(blank) && Parsed(blank, Root(e, bench), realText).Some?
    ensures var root, back := Root(e, bench), Parsed(blank, Root(e, bench), realText).value;
      Printed(back, bench) == Some(Root(back, bench))
      && (Printed(back, bench) == Some(root) <==> forall t: Tag :: IsField(t) && t in root ==> Keeps(root, t, realText))
  {
    var root, back := Root(e, bench), Parsed(blank, Root(e, bench), realText).value;
    FieldsOfRoot(e, bench);
    ListComesBack(e, bench, realText);
    KeptStays(e.attachments, back.data);
    assert back.attachments == Kept(e.attachments);
    assert Printed(back, bench) == Some(Root(back, bench));
    SameRoots(back, e, bench);
    forall t: Tag
      ensures IsField(t) && t in root ==> (PrintedAt(back, bench, t) == PrintedAt(e, bench, t) <==> Keeps(root, t, realText))
      ensures (IsField(t) && t in root) || PrintedAt(back, bench, t) == PrintedAt(e, bench, t)
    {
      hide Parsed; hide PrintedAt; hide Root; hide Converted;
      if IsField(t) { FieldComesBack(e, blank, bench, realText, t); } else { RestComesBack(e, blank, bench, realText, t); }
    }
  }

  // A conversion that keeps its field does not throw.
  lemma KeptFieldsParse(e: Event, blank: Event, bench: bool, realText: real -> string)
    requires IsFresh(blank)
    requires forall t: Tag :: IsField(t) && t in Root(e, bench) ==> Keeps(Root(e, bench), t, realText)
    ensures Parsed(blank, Root(e, bench), realText).Some?
  {
    ListComesBack(e, bench, realText);
    var root := Root(e, bench);
    forall t: Tag ensures !Throws(root, t, realText) {
      assert Taken(root, t) ==> IsField(t) && PrintedAt(e, bench, t).Some?;
    }
  }

  // What comes back into a new event has the values its text is read back as.
  lemma BackIsWritten(e: Event, blank: Event, bench: bool, realText: real -> string)
    requires IsFresh(blank) && Parsed(blank, Root(AsWritten(e), bench), realText).Some?
    ensures var back := Parsed(blank, Root(AsWritten(e), bench), realText).value;
      Text(Root(back, bench)) == Root(back, bench)
  {
    var back := Parsed(blank, Root(AsWritten(e), bench), realText).value;
    forall t: Tag | PrintedAt(back, bench, t).Some?
      ensures Written(PrintedAt(back, bench, t).value) == PrintedAt(back, bench, t).value
    {
      BackAtIsWritten(e, blank, bench, realText, t);
    }
    hide PrintedAt; hide Written; hide Parsed;
  }

  lemma BackAtIsWritten(e: Event, blank: Event, bench: bool, realText: real -> string, t: Tag)
    requires IsFresh(blank) && Parsed(blank, Root(AsWritten(e), bench), realText).Some?
    ensures var j := PrintedAt(Parsed(blank, Root(AsWritten(e), bench), realText).value, bench, t);
      j.Some? ==> Written(j.value) == j.value
  {
    hide Parsed; hide Root; hide PrintedAt; hide AsWritten;
    if IsField(t) {
      FieldComesBack(AsWritten(e), blank, bench, realText, t);
      ConversionIsWritten(t, At(Root(AsWritten(e), bench), t), realText);
    } else {
      RestComesBack(AsWritten(e), blank, bench, realText, t);
      PrintedAsWritten(e, bench, t);
      if PrintedAt(e, bench, t).Some? { WrittenTwice(PrintedAt(e, bench, t).value); }
    }
  }

  lemma ConversionIsWritten(t: Tag, j: Json, realText: real -> string)
    ensures var c := Converted(t, j, realText); c.Some? ==> Written(c.value) == c.value
  {
  }

  /** Print, parse the text into a new event, print: the same text comes out exactly when the fields that
      parsing converts already had, in their text, the types it converts to. */
  lemma PrintParsePrint(e: Event, blank: Event, bench: bool, realText: real -> string)
    requires Printed(e, bench).Some? && IsFresh(blank)
    ensures SameText(Reprinted(e, blank, bench, realText), Printed(e, bench)) <==> WellTyped(e)
  {
    hide Root; hide Parsed; hide Keeps; hide Written; hide Text;
    var moved := e.(data := Moved(e.data, Later(e.attachments)).value);
    var w := AsWritten(moved);
    assert Printed(e, bench) == Some(Root(moved, bench));
    TextOfRoot(moved, bench);
    assert WellTyped(e) <==> FieldsTyped(w);
    TypedFields(w, bench, realText);
    if FieldsTyped(w) { KeptFieldsParse(w, blank, bench, realText); }
    if Parsed(blank, Root(w, bench), realText).Some? {
      ComesBackSame(w, blank, bench, realText);
      BackIsWritten(moved, blank, bench, realText);
    }
  }

  // A whole timestamp given as a double, as the constructor with a time does, survives; one with a fraction
  // does not, and neither does one of 10^17 or more, which is written with an exponent.
  lemma DoubleTimestamps(e: Event, r: real)
    requires Timestamp in e.fields && e.fields[Timestamp] == JReal(r)
    ensures HasType(Timestamp, Written(At(e.fields, Timestamp))) <==> r.Floor as real == r && 0.0 <= r < TEN_TO_17
  {
  }

  lemma TypedParses(w: Event, blank: Event, bench: bool, realText: real -> string)
    requires FieldsTyped(w) && IsFresh(blank)
    ensures Parsed(blank, Root(w, bench), realText).Some?
  {
    TypedFields(w, bench, realText);
    hide FieldsTyped; hide Root; hide Parsed;
    KeptFieldsParse(w, blank, bench, realText);
  }

  lemma RestOfParse(blank: Event, root: Members, realText: real -> string)
    requires IsFresh(blank) && Parsed(blank, root, realText).Some?
    ensures var back := Parsed(blank, root, realText).value;
      && back.data == At(root, Data) && back.pii == (if Pii in root then root[Pii] else JObject(map[]))
      && Some(back.attachments) == ListedNames(root, realText)
  {
    hide Read; hide Throws; hide ListedNames;
    var names := ListedNames(root, realText).value;
    assert [] + names == names;
  }

  lemma PersonalWritten(pii: Json)
    ensures (if Empty(Written(pii)) then JObject(map[]) else Written(pii))
      == if pii == JNull || pii == JArray([]) then JObject(map[]) else Written(pii)
  {
    WrittenTwice(pii);
    if pii == JObject(map[]) { assert Empty(Written(pii)) && Written(pii).members == map[]; }
  }

  // A well-typed event does come back, with its data and personal fields as their text says, and the kept list.
  lemma ParsesBack(e: Event, blank: Event, bench: bool, realText: real -> string)
    requires Printed(e, bench).Some? && IsFresh(blank) && WellTyped(e)
    ensures var back := Parsed(blank, Text(Printed(e, bench).value), realText);
      && back.Some?
      && back.value.data == Written(Target(e).data)
      && back.value.pii == (if e.pii == JNull || e.pii == JArray([]) then JObject(map[]) else Written(e.pii))
      && back.value.attachments == Kept(e.attachments)
  {
    var w := AsWritten(Target(e));
    assert FieldsTyped(w) && Printed(e, bench).value == Root(Target(e), bench);
    hide FieldsTyped; hide Root; hide Kept; hide Written; hide Text; hide ListedNames; hide Parsed; hide Printed;
    hide Empty;
    TypedParses(w, blank, bench, realText);
    TextOfRoot(Target(e), bench);
    OthersOfRoot(w, bench);
    PersonalWritten(e.pii);
    ListComesBack(w, bench, realText);
    RestOfParse(blank, Root(w, bench), realText);
  }
}
