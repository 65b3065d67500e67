// Event payload values to JSON and back (_serialize_value and _deserialize_value in
// src/infrastructure/event_log.py). Decimals, dates and times are their canonical texts.
module Serialization {
  import opened Common

  datatype List<+T> = Nil | Cons(head: T, tail: List<T>)

  datatype Item<+T> = Item(key: string, value: T)

  // What JSON carries unchanged.
  datatype Primitive = Null | Text(s: string) | Integer(n: int) | Float(x: real) | Boolean(b: bool)

  datatype Value =
    | Plain(p: Primitive)
    | EnumMember(enum: string, p: Primitive)
    | DecimalValue(text: string)
    | DateTimeValue(text: string)
    | DateValue(text: string)
    | DataObject(cls: string, values: List<Value>)
    | Sequence(items: List<Value>)
    | TupleOf(items: List<Value>)
    | Dictionary(entries: List<Item<Value>>)
    | Unknown(text: string)

  datatype Json = Scalar(p: Primitive) | Array(items: List<Json>) | Object(members: List<Item<Json>>)

  // The declared type of a field, as far as decoding looks at it.
  datatype Hint = NoHint | EnumHint(enum: string)

  // `init`: the constructor takes the field; otherwise it sets the field itself.
  datatype Field = Field(name: string, hint: Hint, init: bool)

  // Data classes by module and name, with their fields, and the members of enumerations.
  // `derived` are the values a constructor gives to the fields it does not take, from the
  // ones it does.
  datatype Schema = Schema(
    classes: map<string, List<Field>>,
    enums: map<string, set<Primitive>>,
    derived: (string, List<Value>) -> List<Value>
  ) {
    function FieldsOf(cls: string): List<Field> {
      if cls in classes then classes[cls] else Nil
    }

    predicate IsMember(enum: string, p: Primitive) {
      enum in enums && p in enums[enum]
    }

    // Class keys hold a dot between module and name; field names are distinct and are not
    // the type tag; a constructor sets all the fields it does not take.
    ghost predicate Valid() {
      && (forall c :: c in classes ==> '.' in c && DistinctNames(classes[c]))
      && (forall c, taken :: c in classes ==> Length(derived(c, taken)) == Others(classes[c]))
    }
  }

  const TAG := "__type__"

  function Length<T>(xs: List<T>): nat {
    match xs
    case Nil => 0
    case Cons(_, rest) => 1 + Length(rest)
  }

  // How many fields the constructor does not take, and how many it does.
  function Others(fs: List<Field>): nat {
    match fs
    case Nil => 0
    case Cons(f, rest) => Others(rest) + if f.init then 0 else 1
  }

  function Inits(fs: List<Field>): nat {
    match fs
    case Nil => 0
    case Cons(f, rest) => Inits(rest) + if f.init then 1 else 0
  }

  // The values of one of the two kinds of fields, and all of them together again.
  function Part(values: List<Value>, fs: List<Field>, init: bool): List<Value> {
    if values.Nil? || fs.Nil? then Nil
    else if fs.head.init == init then Cons(values.head, Part(values.tail, fs.tail, init))
    else Part(values.tail, fs.tail, init)
  }

  function Assemble(fs: List<Field>, taken: List<Value>, others: List<Value>): List<Value>
    requires Length(taken) == Inits(fs) && Length(others) == Others(fs)
  {
    match fs
    case Nil => Nil
    case Cons(f, rest) =>
      if f.init then Cons(taken.head, Assemble(rest, taken.tail, others))
      else Cons(others.head, Assemble(rest, taken, others.tail))
  }

  predicate HasField(fs: List<Field>, name: string) {
    fs.Cons? && (fs.head.name == name || HasField(fs.tail, name))
  }

  predicate DistinctNames(fs: List<Field>) {
    fs.Cons? ==> fs.head.name != TAG && !HasField(fs.tail, fs.head.name) && DistinctNames(fs.tail)
  }

  // ---- Encoding -------------------------------------------------------------------------

  function Serialize(v: Value, s: Schema): Json
    decreases v
  {
    match v
    case Plain(p) => Scalar(p)
    case EnumMember(_, p) => Scalar(p)
    case DecimalValue(text) => Tagged("decimal", text)
    case DateTimeValue(text) => Tagged("datetime", text)
    case DateValue(text) => Tagged("date", text)
    case DataObject(cls, values) =>
      Object(Cons(Item(TAG, Scalar(Text(cls))), SerializeFields(values, s.FieldsOf(cls), s)))
    case Sequence(items) => Array(SerializeAll(items, s))
    case TupleOf(items) => Array(SerializeAll(items, s))
    case Dictionary(entries) => Object(SerializeEntries(entries, s))
    case Unknown(text) => Scalar(Text(text))
  }

  function Tagged(tag: string, text: string): Json {
    Object(Cons(Item(TAG, Scalar(Text(tag))), Cons(Item("value", Scalar(Text(text))), Nil)))
  }

  function SerializeAll(items: List<Value>, s: Schema): List<Json>
    decreases items
  {
    match items
    case Nil => Nil
    case Cons(v, rest) => Cons(Serialize(v, s), SerializeAll(rest, s))
  }

  function SerializeEntries(entries: List<Item<Value>>, s: Schema): List<Item<Json>>
    decreases entries
  {
    match entries
    case Nil => Nil
    case Cons(e, rest) => Cons(Item(e.key, Serialize(e.value, s)), SerializeEntries(rest, s))
  }

  function SerializeFields(values: List<Value>, fs: List<Field>, s: Schema): List<Item<Json>>
    decreases values
  {
    match values
    case Nil => Nil
    case Cons(v, rest) =>
      if fs.Nil? then Nil
      else Cons(Item(fs.head.name, Serialize(v, s)), SerializeFields(rest, fs.tail, s))
  }

  // ---- Decoding -------------------------------------------------------------------------

  // The last member wins, as in a dictionary.
  function Lookup(members: List<Item<Json>>, key: string): Option<Json> {
    match members
    case Nil => None
    case Cons(m, rest) =>
      var later := Lookup(rest, key);
      if later.Some? then later else if m.key == key then Some(m.value) else None
  }

  lemma {:induction false} LookupIsPart(members: List<Item<Json>>, key: string)
    ensures Lookup(members, key).Some? ==> Lookup(members, key).value < members
  {
    if members.Cons? {
      LookupIsPart(members.tail, key);
    }
  }

  // A value that names a member of the expected enumeration becomes that member.
  function DecodeScalar(p: Primitive, hint: Hint, s: Schema): Value {
    if hint.EnumHint? && s.IsMember(hint.enum, p) then EnumMember(hint.enum, p) else Plain(p)
  }

  function TextIn(members: List<Item<Json>>): Option<string> {
    match Lookup(members, "value")
    case Some(Scalar(Text(t))) => Some(t)
    case _ => None
  }

  // The constructor keeps what it takes; a wrong number of values does not occur.
  function Construct(cls: string, taken: List<Value>, s: Schema): Value
    requires cls in s.classes
  {
    var fs, others := s.classes[cls], s.derived(cls, taken);
    if Length(taken) == Inits(fs) && Length(others) == Others(fs) then DataObject(cls, Assemble(fs, taken, others))
    else DataObject(cls, Nil)
  }

  // `None` stands for an exception. `known` are the classes registered in this process.
  function Deserialize(j: Json, hint: Hint, s: Schema, known: set<string>): Option<Value>
    decreases j
  {
    match j
    case Scalar(p) => Some(DecodeScalar(p, hint, s))
    case Array(items) =>
      var all := DeserializeAll(items, s, known);
      if all.Some? then Some(Sequence(all.value)) else None
    case Object(members) =>
      match Lookup(members, TAG)
      case Some(Scalar(Text(tag))) =>
        if tag == "decimal" || tag == "datetime" || tag == "date" then
          var text := TextIn(members);
          if text.None? then None
          else if tag == "decimal" then Some(DecimalValue(text.value))
          else if tag == "datetime" then Some(DateTimeValue(text.value))
          else Some(DateValue(text.value))
        else if tag in known && tag in s.classes then
          var taken := DeserializeFields(members, s.classes[tag], s, known);
          if taken.Some? then Some(Construct(tag, taken.value, s)) else None
        else DeserializeMap(members, s, known)
      case Some(Array(_)) => None
      case Some(Object(_)) => None
      case _ => DeserializeMap(members, s, known)
  }

  function DeserializeMap(members: List<Item<Json>>, s: Schema, known: set<string>): Option<Value>
    decreases members, 1
  {
    var entries := DeserializeEntries(members, s, known);
    if entries.Some? then Some(Dictionary(entries.value)) else None
  }

  function DeserializeAll(items: List<Json>, s: Schema, known: set<string>): Option<List<Value>>
    decreases items
  {
    match items
    case Nil => Some(Nil)
    case Cons(j, rest) =>
      var v, others := Deserialize(j, NoHint, s, known), DeserializeAll(rest, s, known);
      if v.Some? && others.Some? then Some(Cons(v.value, others.value)) else None
  }

  function DeserializeEntries(members: List<Item<Json>>, s: Schema, known: set<string>): Option<List<Item<Value>>>
    decreases members, 0
  {
    match members
    case Nil => Some(Nil)
    case Cons(m, rest) =>
      var v, others := Deserialize(m.value, NoHint, s, known), DeserializeEntries(rest, s, known);
      if v.Some? && others.Some? then Some(Cons(Item(m.key, v.value), others.value)) else None
  }

  // One value per field that the constructor takes; an absent member reads as null.
  function DeserializeFields(members: List<Item<Json>>, fs: List<Field>, s: Schema, known: set<string>)
      : Option<List<Value>>
    decreases members, fs
  {
    match fs
    case Nil => Some(Nil)
    case Cons(f, rest) =>
      var found := Lookup(members, f.name);
      LookupIsPart(members, f.name);
      var v := if found.Some? then Deserialize(found.value, f.hint, s, known) else Some(DecodeScalar(Null, f.hint, s));
      var others := DeserializeFields(members, rest, s, known);
      if !f.init then others
      else if v.Some? && others.Some? then Some(Cons(v.value, others.value))
      else None
  }

  // ---- Which values come back ---------------------------------------------------------------

  // The value under a key of a dictionary.
  function EntryAt(entries: List<Item<Value>>, key: string): Option<Value> {
    match entries
    case Nil => None
    case Cons(e, rest) =>
      var later := EntryAt(rest, key);
      if later.Some? then later else if e.key == key then Some(e.value) else None
  }

  // Under the type tag the decoder takes this value for a type, or fails on it.
  predicate TakenForType(v: Value, s: Schema, known: set<string>) {
    match v
    case Plain(Text(t)) => IsTypeName(t, s, known)
    case EnumMember(_, Text(t)) => IsTypeName(t, s, known)
    case Unknown(t) => IsTypeName(t, s, known)
    case Plain(_) => false
    case EnumMember(_, _) => false
    case _ => true
  }

  predicate IsTypeName(t: string, s: Schema, known: set<string>) {
    t == "decimal" || t == "datetime" || t == "date" || (t in known && t in s.classes)
  }

  // Values that can occur: members of their enumerations, and one value per field.
  ghost predicate Regular(v: Value, s: Schema)
    decreases v
  {
    match v
    case EnumMember(e, p) => s.IsMember(e, p)
    case DataObject(cls, values) => cls in s.classes && RegularFields(values, s.classes[cls], s)
    case Sequence(items) => RegularAll(items, s)
    case TupleOf(items) => RegularAll(items, s)
    case Dictionary(entries) => RegularEntries(entries, s)
    case _ => true
  }

  ghost predicate RegularAll(items: List<Value>, s: Schema)
    decreases items
  {
    items.Cons? ==> Regular(items.head, s) && RegularAll(items.tail, s)
  }

  ghost predicate RegularEntries(entries: List<Item<Value>>, s: Schema)
    decreases entries
  {
    entries.Cons? ==> Regular(entries.head.value, s) && RegularEntries(entries.tail, s)
  }

  ghost predicate RegularFields(values: List<Value>, fs: List<Field>, s: Schema)
    decreases values
  {
    && (values.Cons? <==> fs.Cons?)
    && (values.Cons? ==> Regular(values.head, s) && RegularFields(values.tail, fs.tail, s))
  }

  // Enum members only where a field declares their enumeration, no plain value there that
  // names a member, no tuples, nothing stored by its text alone, every data class
  // registered in the decoding process with what its constructor sets itself still as the
  // constructor set it, and nothing under the type tag of a dictionary that
  // the decoder takes for a type.
  ghost predicate Faithful(v: Value, hint: Hint, s: Schema, known: set<string>)
    decreases v
  {
    match v
    case Plain(p) => hint.EnumHint? ==> !s.IsMember(hint.enum, p)
    case EnumMember(e, _) => hint == EnumHint(e)
    case DataObject(cls, values) =>
      && cls in known && FaithfulFields(values, s.FieldsOf(cls), s, known)
      && Part(values, s.FieldsOf(cls), false) == s.derived(cls, Part(values, s.FieldsOf(cls), true))
    case Sequence(items) => FaithfulAll(items, s, known)
    case Dictionary(entries) =>
      && (EntryAt(entries, TAG).Some? ==> !TakenForType(EntryAt(entries, TAG).value, s, known))
      && FaithfulEntries(entries, s, known)
    case TupleOf(_) => false
    case Unknown(_) => false
    case _ => true
  }

  ghost predicate FaithfulAll(items: List<Value>, s: Schema, known: set<string>)
    decreases items
  {
    items.Cons? ==> Faithful(items.head, NoHint, s, known) && FaithfulAll(items.tail, s, known)
  }

  ghost predicate FaithfulEntries(entries: List<Item<Value>>, s: Schema, known: set<string>)
    decreases entries
  {
    entries.Cons? ==> Faithful(entries.head.value, NoHint, s, known) && FaithfulEntries(entries.tail, s, known)
  }

  ghost predicate FaithfulFields(values: List<Value>, fs: List<Field>, s: Schema, known: set<string>)
    decreases values
  {
    values.Cons? && fs.Cons? ==>
      && (fs.head.init ==> Faithful(values.head, fs.head.hint, s, known))
      && FaithfulFields(values.tail, fs.tail, s, known)
  }

  // ---- The round trip -----------------------------------------------------------------------

  lemma {:induction false} EntryIsStored(entries: List<Item<Value>>, s: Schema, key: string)
    ensures EntryAt(entries, key).None? ==> Lookup(SerializeEntries(entries, s), key) == None
    ensures EntryAt(entries, key).Some? ==>
              Lookup(SerializeEntries(entries, s), key) == Some(Serialize(EntryAt(entries, key).value, s))
  {
    if entries.Cons? {
      EntryIsStored(entries.tail, s, key);
    }
  }

  lemma {:induction false} NotAmongFields(values: List<Value>, fs: List<Field>, s: Schema, key: string)
    requires !HasField(fs, key)
    ensures Lookup(SerializeFields(values, fs, s), key) == None
  {
    if values.Cons? && fs.Cons? {
      NotAmongFields(values.tail, fs.tail, s, key);
    }
  }

  lemma {:induction false} TagIsNoField(fs: List<Field>)
    requires DistinctNames(fs)
    ensures !HasField(fs, TAG)
  {
    if fs.Cons? {
      TagIsNoField(fs.tail);
    }
  }

  // Every field's name leads to its encoded value.
  ghost predicate Stored(members: List<Item<Json>>, values: List<Value>, fs: List<Field>, s: Schema)
    decreases values
  {
    values.Cons? && fs.Cons? ==>
      && Lookup(members, fs.head.name) == Some(Serialize(values.head, s))
      && Stored(members, values.tail, fs.tail, s)
  }

  lemma {:induction false} StoredBehind(m: Item<Json>, members: List<Item<Json>>, values: List<Value>,
                                        fs: List<Field>, s: Schema)
    requires Stored(members, values, fs, s)
    ensures Stored(Cons(m, members), values, fs, s)
    decreases values
  {
    if values.Cons? && fs.Cons? {
      StoredBehind(m, members, values.tail, fs.tail, s);
    }
  }

  lemma {:induction false} FieldsAreStored(values: List<Value>, fs: List<Field>, s: Schema)
    requires DistinctNames(fs)
    ensures Stored(SerializeFields(values, fs, s), values, fs, s)
    decreases values
  {
    if values.Cons? && fs.Cons? {
      var m := Item(fs.head.name, Serialize(values.head, s));
      FieldsAreStored(values.tail, fs.tail, s);
      StoredBehind(m, SerializeFields(values.tail, fs.tail, s), values.tail, fs.tail, s);
      NotAmongFields(values.tail, fs.tail, s, fs.head.name);
    }
  }

  lemma {:induction false} AllRoundTrip(items: List<Value>, s: Schema, known: set<string>)
    requires s.Valid() && RegularAll(items, s)
    ensures DeserializeAll(SerializeAll(items, s), s, known) == Some(items) <==> FaithfulAll(items, s, known)
    decreases items
  {
    if items.Cons? {
      RoundTripIff(items.head, NoHint, s, known);
      AllRoundTrip(items.tail, s, known);
    }
  }

  lemma {:induction false} EntriesRoundTrip(entries: List<Item<Value>>, s: Schema, known: set<string>)
    requires s.Valid() && RegularEntries(entries, s)
    ensures DeserializeEntries(SerializeEntries(entries, s), s, known) == Some(entries)
       <==> FaithfulEntries(entries, s, known)
    decreases entries
  {
    if entries.Cons? {
      RoundTripIff(entries.head.value, NoHint, s, known);
      EntriesRoundTrip(entries.tail, s, known);
    }
  }

  lemma {:induction false} FieldsRoundTrip(members: List<Item<Json>>, values: List<Value>, fs: List<Field>, s: Schema,
                                           known: set<string>)
    requires s.Valid() && RegularFields(values, fs, s) && Stored(members, values, fs, s)
    ensures DeserializeFields(members, fs, s, known) == Some(Part(values, fs, true))
       <==> FaithfulFields(values, fs, s, known)
    decreases values, 0
  {
    if values.Cons? {
      RoundTripIff(values.head, fs.head.hint, s, known);
      FieldsRoundTrip(members, values.tail, fs.tail, s, known);
    }
  }

  lemma {:induction false} TakenLength(members: List<Item<Json>>, fs: List<Field>, s: Schema, known: set<string>)
    ensures DeserializeFields(members, fs, s, known).Some? ==>
              Length(DeserializeFields(members, fs, s, known).value) == Inits(fs)
  {
    if fs.Cons? {
      TakenLength(members, fs.tail, s, known);
    }
  }

  // Putting the two kinds together gives the values back exactly when both are theirs.
  lemma {:induction false} AssembleIff(fs: List<Field>, taken: List<Value>, others: List<Value>, values: List<Value>)
    requires Length(values) == Length(fs) && Length(taken) == Inits(fs) && Length(others) == Others(fs)
    ensures Assemble(fs, taken, others) == values
       <==> taken == Part(values, fs, true) && others == Part(values, fs, false)
  {
    if fs.Cons? {
      if fs.head.init {
        AssembleIff(fs.tail, taken.tail, others, values.tail);
      } else {
        AssembleIff(fs.tail, taken, others.tail, values.tail);
      }
    }
  }

  lemma {:induction false} OneValuePerField(values: List<Value>, fs: List<Field>, s: Schema)
    requires RegularFields(values, fs, s)
    ensures Length(values) == Length(fs)
    decreases values
  {
    if values.Cons? {
      OneValuePerField(values.tail, fs.tail, s);
    }
  }

  // The members of an encoded data class: the tag leads to its name, every field to its value.
  lemma EncodedClass(cls: string, values: List<Value>, s: Schema)
    requires s.Valid() && cls in s.classes && RegularFields(values, s.classes[cls], s)
    ensures
      var members := Serialize(DataObject(cls, values), s).members;
      && Lookup(members, TAG) == Some(Scalar(Text(cls)))
      && Stored(members, values, s.classes[cls], s)
      && !IsTypeName(cls, s, {})
  {
    var fs := s.classes[cls];
    TagIsNoField(fs);
    NotAmongFields(values, fs, s, TAG);
    FieldsAreStored(values, fs, s);
    StoredBehind(Item(TAG, Scalar(Text(cls))), SerializeFields(values, fs, s), values, fs, s);
    assert '.' !in "decimal" && '.' !in "datetime" && '.' !in "date";
  }

  lemma {:induction false} ObjectRoundTrip(cls: string, values: List<Value>, s: Schema, known: set<string>)
    requires s.Valid() && cls in s.classes && RegularFields(values, s.classes[cls], s)
    ensures
      var v := DataObject(cls, values);
      Deserialize(Serialize(v, s), NoHint, s, known) == Some(v) <==> Faithful(v, NoHint, s, known)
    decreases values, 1
  {
    var fs := s.classes[cls];
    var members := Serialize(DataObject(cls, values), s).members;
    EncodedClass(cls, values, s);
    FieldsRoundTrip(members, values, fs, s, known);
    var taken := DeserializeFields(members, fs, s, known);
    if taken.Some? {
      TakenLength(members, fs, s, known);
      OneValuePerField(values, fs, s);
      AssembleIff(fs, taken.value, s.derived(cls, taken.value), values);
    }
  }

  // Decoding the encoded value gives the value back exactly for the faithful ones.
  lemma {:induction false} RoundTripIff(v: Value, hint: Hint, s: Schema, known: set<string>)
    requires s.Valid() && Regular(v, s)
    ensures Deserialize(Serialize(v, s), hint, s, known) == Some(v) <==> Faithful(v, hint, s, known)
    decreases v
  {
    match v
    case DataObject(cls, values) => ObjectRoundTrip(cls, values, s, known);
    case Sequence(items) => AllRoundTrip(items, s, known);
    case Dictionary(entries) =>
      EntryIsStored(entries, s, TAG);
      EntriesRoundTrip(entries, s, known);
    case DecimalValue(text) => TaggedMembers("decimal", text);
    case DateTimeValue(text) => TaggedMembers("datetime", text);
    case DateValue(text) => TaggedMembers("date", text);
    case _ =>
  }

  lemma TaggedMembers(tag: string, text: string)
    ensures Lookup(Tagged(tag, text).members, TAG) == Some(Scalar(Text(tag)))
    ensures TextIn(Tagged(tag, text).members) == Some(text)
  {
    var second := Cons(Item("value", Scalar(Text(text))), Nil);
    assert |TAG| == 8 && |"value"| == 5;
    assert Lookup(Nil, TAG) == None && Lookup(Nil, "value") == None;
    assert Lookup(second, TAG) == None && Lookup(second, "value") == Some(Scalar(Text(text)));
  }

  // ---- What every value becomes -------------------------------------------------------------

  // No dictionary that gets decoded holds under the type tag what the decoder takes for a type.
  ghost predicate Untagged(v: Value, s: Schema, known: set<string>)
    decreases v
  {
    match v
    case DataObject(cls, values) => UntaggedFields(values, s.FieldsOf(cls), cls !in known, s, known)
    case Sequence(items) => UntaggedAll(items, s, known)
    case TupleOf(items) => UntaggedAll(items, s, known)
    case Dictionary(entries) =>
      && (EntryAt(entries, TAG).Some? ==> !TakenForType(EntryAt(entries, TAG).value, s, known))
      && UntaggedEntries(entries, s, known)
    case _ => true
  }

  ghost predicate UntaggedAll(items: List<Value>, s: Schema, known: set<string>)
    decreases items
  {
    items.Cons? ==> Untagged(items.head, s, known) && UntaggedAll(items.tail, s, known)
  }

  ghost predicate UntaggedEntries(entries: List<Item<Value>>, s: Schema, known: set<string>)
    decreases entries
  {
    entries.Cons? ==> Untagged(entries.head.value, s, known) && UntaggedEntries(entries.tail, s, known)
  }

  // Of all fields, or of those the constructor takes.
  ghost predicate UntaggedFields(values: List<Value>, fs: List<Field>, all: bool, s: Schema, known: set<string>)
    decreases values
  {
    values.Cons? && fs.Cons? ==>
      && (all || fs.head.init ==> Untagged(values.head, s, known))
      && UntaggedFields(values.tail, fs.tail, all, s, known)
  }

  // The value that comes back: tuples become lists, what is stored by its text becomes that
  // text, an enum member its plain value unless the field declares an enumeration with that
  // value, a data class of a kind this process has not registered a dictionary of its
  // fields under its name. A registered class is built by its constructor from what its
  // fields become.
  ghost function Normal(v: Value, hint: Hint, s: Schema, known: set<string>): Value
    requires s.Valid() && Regular(v, s)
    decreases v
  {
    match v
    case Plain(p) => DecodeScalar(p, hint, s)
    case EnumMember(_, p) => DecodeScalar(p, hint, s)
    case Unknown(text) => DecodeScalar(Text(text), hint, s)
    case DecimalValue(_) => v
    case DateTimeValue(_) => v
    case DateValue(_) => v
    case Sequence(items) => Sequence(NormalAll(items, s, known))
    case TupleOf(items) => Sequence(NormalAll(items, s, known))
    case Dictionary(entries) => Dictionary(NormalEntries(entries, s, known))
    case DataObject(cls, values) =>
      var fs := s.classes[cls];
      if cls in known then
        var taken := NormalTaken(values, fs, s, known);
        DataObject(cls, Assemble(fs, taken, s.derived(cls, taken)))
      else Dictionary(Cons(Item(TAG, Plain(Text(cls))), NormalMembers(values, fs, s, known)))
  }

  ghost function NormalAll(items: List<Value>, s: Schema, known: set<string>): List<Value>
    requires s.Valid() && RegularAll(items, s)
    decreases items
  {
    match items
    case Nil => Nil
    case Cons(v, rest) => Cons(Normal(v, NoHint, s, known), NormalAll(rest, s, known))
  }

  ghost function NormalEntries(entries: List<Item<Value>>, s: Schema, known: set<string>): List<Item<Value>>
    requires s.Valid() && RegularEntries(entries, s)
    decreases entries
  {
    match entries
    case Nil => Nil
    case Cons(e, rest) => Cons(Item(e.key, Normal(e.value, NoHint, s, known)), NormalEntries(rest, s, known))
  }

  ghost function NormalTaken(values: List<Value>, fs: List<Field>, s: Schema, known: set<string>): (r: List<Value>)
    requires s.Valid() && RegularFields(values, fs, s)
    ensures Length(r) == Inits(fs)
    decreases values
  {
    match values
    case Nil => Nil
    case Cons(v, rest) =>
      var others := NormalTaken(rest, fs.tail, s, known);
      if fs.head.init then Cons(Normal(v, fs.head.hint, s, known), others) else others
  }

  ghost function NormalMembers(values: List<Value>, fs: List<Field>, s: Schema, known: set<string>): List<Item<Value>>
    requires s.Valid() && RegularFields(values, fs, s)
    decreases values
  {
    match values
    case Nil => Nil
    case Cons(v, rest) =>
      Cons(Item(fs.head.name, Normal(v, NoHint, s, known)), NormalMembers(rest, fs.tail, s, known))
  }

  lemma {:induction false} AllBecomeNormal(items: List<Value>, s: Schema, known: set<string>)
    requires s.Valid() && RegularAll(items, s) && UntaggedAll(items, s, known)
    ensures DeserializeAll(SerializeAll(items, s), s, known) == Some(NormalAll(items, s, known))
    decreases items
  {
    if items.Cons? {
      EveryValueBecomesNormal(items.head, NoHint, s, known);
      AllBecomeNormal(items.tail, s, known);
    }
  }

  lemma {:induction false} EntriesBecomeNormal(entries: List<Item<Value>>, s: Schema, known: set<string>)
    requires s.Valid() && RegularEntries(entries, s) && UntaggedEntries(entries, s, known)
    ensures DeserializeEntries(SerializeEntries(entries, s), s, known) == Some(NormalEntries(entries, s, known))
    decreases entries
  {
    if entries.Cons? {
      EveryValueBecomesNormal(entries.head.value, NoHint, s, known);
      EntriesBecomeNormal(entries.tail, s, known);
    }
  }

  lemma {:induction false} MembersBecomeNormal(values: List<Value>, fs: List<Field>, s: Schema, known: set<string>)
    requires s.Valid() && RegularFields(values, fs, s) && UntaggedFields(values, fs, true, s, known)
    ensures DeserializeEntries(SerializeFields(values, fs, s), s, known) == Some(NormalMembers(values, fs, s, known))
    decreases values, 0
  {
    if values.Cons? {
      EveryValueBecomesNormal(values.head, NoHint, s, known);
      MembersBecomeNormal(values.tail, fs.tail, s, known);
    }
  }

  lemma {:induction false} TakenBecomeNormal(members: List<Item<Json>>, values: List<Value>, fs: List<Field>,
                                             s: Schema, known: set<string>)
    requires s.Valid() && RegularFields(values, fs, s) && Stored(members, values, fs, s)
    requires UntaggedFields(values, fs, false, s, known)
    ensures DeserializeFields(members, fs, s, known) == Some(NormalTaken(values, fs, s, known))
    decreases values, 0
  {
    if values.Cons? {
      if fs.head.init {
        EveryValueBecomesNormal(values.head, fs.head.hint, s, known);
      }
      TakenBecomeNormal(members, values.tail, fs.tail, s, known);
    }
  }

  lemma {:induction false} ObjectBecomesNormal(cls: string, values: List<Value>, s: Schema, known: set<string>)
    requires s.Valid() && Regular(DataObject(cls, values), s) && Untagged(DataObject(cls, values), s, known)
    ensures
      var v := DataObject(cls, values);
      Deserialize(Serialize(v, s), NoHint, s, known) == Some(Normal(v, NoHint, s, known))
    decreases values, 1
  {
    var fs := s.classes[cls];
    var members := Serialize(DataObject(cls, values), s).members;
    EncodedClass(cls, values, s);
    if cls in known {
      TakenBecomeNormal(members, values, fs, s, known);
    } else {
      MembersBecomeNormal(values, fs, s, known);
      assert Deserialize(members.head.value, NoHint, s, known) == Some(Plain(Text(cls)));
      assert DeserializeMap(members, s, known) == Some(Normal(DataObject(cls, values), NoHint, s, known));
    }
  }

  // A scalar becomes an enumeration member exactly where the field declares an enumeration
  // that has it as a value.
  lemma ScalarBecomesMemberIff(p: Primitive, hint: Hint, s: Schema, known: set<string>)
    ensures
      var declared := hint.EnumHint? && hint.enum in s.enums && p in s.enums[hint.enum];
      Deserialize(Scalar(p), hint, s, known) == Some(if declared then EnumMember(hint.enum, p) else Plain(p))
  {
  }

  // Decoding an encoded value gives its normal form, whatever the value.
  lemma {:induction false} EveryValueBecomesNormal(v: Value, hint: Hint, s: Schema, known: set<string>)
    requires s.Valid() && Regular(v, s) && Untagged(v, s, known)
    ensures Deserialize(Serialize(v, s), hint, s, known) == Some(Normal(v, hint, s, known))
    decreases v
  {
    match v
    case DataObject(cls, values) => ObjectBecomesNormal(cls, values, s, known);
    case Sequence(items) => AllBecomeNormal(items, s, known);
    case TupleOf(items) => AllBecomeNormal(items, s, known);
    case Dictionary(entries) =>
      EntryIsStored(entries, s, TAG);
      EntriesBecomeNormal(entries, s, known);
    case DecimalValue(text) => TaggedMembers("decimal", text);
    case DateTimeValue(text) => TaggedMembers("datetime", text);
    case DateValue(text) => TaggedMembers("date", text);
    case _ =>
  }

  // A dictionary that the decoder takes for a type never comes back as a dictionary: under
  // a tag that is no text it fails, under the three built-in tags it becomes the tagged
  // kind of value, or fails without a text to read, and else an object of the named class.
  lemma {:induction false} TaggedDictionaryIsLost(entries: List<Item<Value>>, hint: Hint, s: Schema, known: set<string>)
    requires EntryAt(entries, TAG).Some? && TakenForType(EntryAt(entries, TAG).value, s, known)
    ensures
      var r := Deserialize(Serialize(Dictionary(entries), s), hint, s, known);
      match Serialize(EntryAt(entries, TAG).value, s)
      case Scalar(Text(tag)) =>
        if tag in {"decimal", "datetime", "date"} then
          match EntryAt(entries, "value")
          case Some(v) =>
            if !Serialize(v, s).Scalar? || !Serialize(v, s).p.Text? then r == None
            else
              var text := Serialize(v, s).p.s;
              r == Some(if tag == "decimal" then DecimalValue(text)
                        else if tag == "datetime" then DateTimeValue(text) else DateValue(text))
          case None => r == None
        else r.Some? ==> r.value.DataObject? && r.value.cls == tag
      case _ => r == None
  {
    EntryIsStored(entries, s, TAG);
    EntryIsStored(entries, s, "value");
  }
}
