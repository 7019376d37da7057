/**
  The comment-preserving editor of `config.toml`
  (crates/qsh-core/src/config_edit.rs). A document is the ordered list of its
  top-level entries; a table is the ordered list of its fields, each with the
  comments and blanks that surround it. Text is left to the TOML library.
 */
module ConfigEdit {
  import opened Options

  datatype Error = InvalidArgument | ConfigError

  datatype Result<+T> = Ok(value: T) | Err(error: Error)

  // ---- Documents ----

  /** A TOML value. `Other` is a float, date-time, array or inline table. */
  datatype Value = Text(text: string) | Int(n: int) | Bool(b: bool) | Other(repr: string)

  /** What a field holds: a value with its surrounding blanks and comment, or a sub-table. */
  datatype Item = Plain(value: Value, decor: string) | Structured(repr: string)

  datatype Field = Field(name: string, leading: string, item: Item)

  datatype Section =
    | Table(prefix: Option<string>, fields: seq<Field>)
    | Inline(decor: string, fields: seq<Field>)
    | NotATable(repr: string)

  datatype Entry = Entry(name: string, section: Section)

  type Document = seq<Entry>

  predicate IsTableLike(s: Section) { s.Table? || s.Inline? }

  // ---- Keys ----

  datatype KeyType = StrKey | IntKey | BoolKey

  datatype ConfigKey = ConfigKey(section: string, key: string, ty: KeyType, choices: seq<string>, aliases: seq<string>)

  /** All spellings of a key, the canonical one first. */
  function Names(k: ConfigKey): seq<string> { [k.key] + k.aliases }

  // ---- Looking up ----

  function FindField(fields: seq<Field>, name: string): Option<Item> {
    if fields == [] then None
    else if fields[0].name == name then Some(fields[0].item)
    else FindField(fields[1..], name)
  }

  function FindSection(doc: Document, name: string): Option<Section> {
    if doc == [] then None
    else if doc[0].name == name then Some(doc[0].section)
    else FindSection(doc[1..], name)
  }

  function ScalarToJson(v: Value): Result<Value> {
    if v.Other? then Err(ConfigError) else Ok(v)
  }

  function ReadItem(item: Item): Result<Option<Value>> {
    match item
    case Structured(_) => Err(ConfigError)
    case Plain(v, _) => (match ScalarToJson(v) case Ok(json) => Ok(Some(json)) case Err(e) => Err(e))
  }

  /** The value under the first of `names` that is present. */
  function ReadNames(fields: seq<Field>, names: seq<string>): Result<Option<Value>> {
    if names == [] then Ok(None)
    else match FindField(fields, names[0])
         case Some(item) => ReadItem(item)
         case None => ReadNames(fields, names[1..])
  }

  function ReadValue(doc: Document, k: ConfigKey): Result<Option<Value>> {
    match FindSection(doc, k.section)
    case None => Ok(None)
    case Some(s) => if IsTableLike(s) then ReadNames(s.fields, Names(k)) else Err(ConfigError)
  }

  predicate HasAlias(doc: Document, k: ConfigKey) {
    var s := FindSection(doc, k.section);
    s.Some? && IsTableLike(s.value) && exists a | a in k.aliases :: FindField(s.value.fields, a).Some?
  }

  // ---- Reading the argument ----

  predicate IsDigit(c: char) { '0' <= c <= '9' }

  predicate AllDigits(s: string) { s != [] && forall i | 0 <= i < |s| :: IsDigit(s[i]) }

  function Digits(s: string): (n: nat)
    requires forall i | 0 <= i < |s| :: IsDigit(s[i])
  {
    if s == [] then 0
    else
      assert IsDigit(s[|s| - 1]);
      Digits(s[..|s| - 1]) * 10 + (s[|s| - 1] as int - '0' as int)
  }

  /** Rust's `u64::from_str`: an optional plus sign, then decimal digits, in range. */
  function ParseU64(raw: string): Option<nat> {
    var digits := if |raw| > 1 && raw[0] == '+' then raw[1..] else raw;
    if !AllDigits(digits) then None
    else if Digits(digits) < 0x1_0000_0000_0000_0000 then Some(Digits(digits)) else None
  }

  function ParseArgument(k: ConfigKey, raw: string): (r: Result<Value>)
    ensures r.Err? ==> r.error == InvalidArgument
    ensures r.Ok? ==> !r.value.Other?
  {
    match k.ty
    case StrKey => if k.choices != [] && raw !in k.choices then Err(InvalidArgument) else Ok(Text(raw))
    case IntKey =>
      (match ParseU64(raw)
       case None => Err(InvalidArgument)
       case Some(n) => if n < 0x8000_0000_0000_0000 then Ok(Int(n)) else Err(InvalidArgument))
    case BoolKey =>
      if raw == "true" then Ok(Bool(true)) else if raw == "false" then Ok(Bool(false)) else Err(InvalidArgument)
  }

  // ---- Editing fields ----

  function Remove(fields: seq<Field>, name: string): seq<Field> { Without(fields, [name]) }

  /** The fields whose names are not in `names`, in order. */
  function Without(fields: seq<Field>, names: seq<string>): seq<Field> {
    if fields == [] then []
    else if fields[0].name in names then Without(fields[1..], names)
    else [fields[0]] + Without(fields[1..], names)
  }

  /** Overwrites the value of `name`, keeping its place, its blanks and its comment, or appends it. */
  function Put(fields: seq<Field>, name: string, v: Value): seq<Field> {
    if fields == [] then [Field(name, "", Plain(v, ""))]
    else if fields[0].name == name then
      [fields[0].(item := Plain(v, if fields[0].item.Plain? then fields[0].item.decor else ""))] + fields[1..]
    else [fields[0]] + Put(fields[1..], name, v)
  }

  /** The document with its (first) section `name` replaced, or appended if there is none. */
  function PutSection(doc: Document, name: string, s: Section): Document {
    if doc == [] then [Entry(name, s)]
    else if doc[0].name == name then [Entry(name, s)] + doc[1..]
    else [doc[0]] + PutSection(doc[1..], name, s)
  }

  function DropSection(doc: Document, name: string): Document {
    if doc == [] then []
    else if doc[0].name == name then DropSection(doc[1..], name)
    else [doc[0]] + DropSection(doc[1..], name)
  }

  predicate IsWhitespace(c: char) {
    var n := c as int;
    0x09 <= n <= 0x0d || n in {0x20, 0x85, 0xa0, 0x1680, 0x2028, 0x2029, 0x202f, 0x205f, 0x3000} || 0x2000 <= n <= 0x200a
  }

  predicate Blank(prefix: Option<string>) {
    prefix.None? || forall i | 0 <= i < |prefix.value| :: IsWhitespace(prefix.value[i])
  }

  // ---- The two edits ----

  datatype Edit = Edit(doc: Document, previous: Option<Value>, current: Option<Value>)

  function SectionOrNew(doc: Document, name: string): Section {
    match FindSection(doc, name) case Some(s) => s case None => Table(None, [])
  }

  function SetFields(fields: seq<Field>, k: ConfigKey, v: Value): seq<Field> {
    Put(Without(fields, k.aliases), k.key, v)
  }

  function Set(doc: Document, k: ConfigKey, raw: string): Result<Edit> {
    match ReadValue(doc, k)
    case Err(e) => Err(e)
    case Ok(previous) =>
      match ParseArgument(k, raw)
      case Err(e) => Err(e)
      case Ok(v) =>
        if previous == Some(v) && !HasAlias(doc, k) then Ok(Edit(doc, previous, Some(v)))
        else
          var s := SectionOrNew(doc, k.section);
          if !IsTableLike(s) then Err(ConfigError)
          else Ok(Edit(PutSection(doc, k.section, s.(fields := SetFields(s.fields, k, v))), previous, Some(v)))
  }

  function Unset(doc: Document, k: ConfigKey): Result<Edit> {
    match ReadValue(doc, k)
    case Err(e) => Err(e)
    case Ok(None) => Ok(Edit(doc, None, None))
    case Ok(previous) =>
      var s := SectionOrNew(doc, k.section);
      if !IsTableLike(s) then Ok(Edit(doc, previous, None))
      else
        var s' := s.(fields := Without(s.fields, Names(k)));
        if s'.Table? && s'.fields == [] && Blank(s'.prefix) then Ok(Edit(DropSection(doc, k.section), previous, None))
        else Ok(Edit(PutSection(doc, k.section, s'), previous, None))
  }

  // ---- Lens lemmas: fields ----

  lemma {:induction false} FindWithout(fields: seq<Field>, names: seq<string>, name: string)
    ensures FindField(Without(fields, names), name) == if name in names then None else FindField(fields, name)
  {
    if fields != [] {
      FindWithout(fields[1..], names, name);
    }
  }

  lemma {:induction false} FindPut(fields: seq<Field>, name: string, v: Value, other: string)
    ensures var put := FindField(Put(fields, name, v), other);
            if other == name then put.Some? && put.value.Plain? && put.value.value == v
            else put == FindField(fields, other)
  {
    if fields != [] {
      FindPut(fields[1..], name, v, other);
    }
  }

  /** Writing under a removed name is invisible once that name is removed. */
  lemma {:induction false} WithoutPut(fields: seq<Field>, name: string, v: Value, names: seq<string>)
    requires name in names
    ensures Without(Put(fields, name, v), names) == Without(fields, names)
  {
    if fields != [] {
      WithoutPut(fields[1..], name, v, names);
    }
  }

  lemma {:induction false} WithoutTwice(fields: seq<Field>, few: seq<string>, many: seq<string>)
    requires forall a | a in few :: a in many
    ensures Without(Without(fields, few), many) == Without(fields, many)
  {
    if fields != [] {
      WithoutTwice(fields[1..], few, many);
    }
  }

  lemma {:induction false} WithoutConcat(fields: seq<Field>, names: seq<string>, name: string)
    ensures Without(fields, names + [name]) == Remove(Without(fields, names), name)
  {
    if fields != [] {
      WithoutConcat(fields[1..], names, name);
    }
  }

  lemma {:induction false} ReadNamesSame(a: seq<Field>, b: seq<Field>, names: seq<string>)
    requires forall n | n in names :: FindField(a, n) == FindField(b, n)
    ensures ReadNames(a, names) == ReadNames(b, names)
  {
    if names != [] {
      ReadNamesSame(a, b, names[1..]);
    }
  }

  lemma {:induction false} ReadNamesNone(fields: seq<Field>, names: seq<string>)
    requires forall n | n in names :: FindField(fields, n).None?
    ensures ReadNames(fields, names) == Ok(None)
  {
    if names != [] {
      ReadNamesNone(fields, names[1..]);
    }
  }

  // ---- Lens lemmas: sections ----

  /** What a key reads is what stands under the first of its spellings that is there. */
  lemma {:induction false} ReadsFirstPresent(fields: seq<Field>, names: seq<string>, i: nat)
    requires i < |names| && FindField(fields, names[i]).Some?
    requires forall j | 0 <= j < i :: FindField(fields, names[j]).None?
    ensures ReadNames(fields, names) == ReadItem(FindField(fields, names[i]).value)
  {
    if i > 0 {
      ReadsFirstPresent(fields, names[1..], i - 1);
    }
  }

  /** A key reads as unset exactly when none of its spellings is there. */
  lemma {:induction false} ReadsUnsetExactlyWhen(fields: seq<Field>, names: seq<string>)
    ensures ReadNames(fields, names) == Ok(None) <==> forall n | n in names :: FindField(fields, n).None?
  {
    if names != [] {
      ReadsUnsetExactlyWhen(fields, names[1..]);
      assert forall n | n in names :: n == names[0] || n in names[1..];
      assert forall n | n in names[1..] :: n in names;
      if FindField(fields, names[0]).Some? {
        assert names[0] in names;
      }
    }
  }

  lemma {:induction false} FindPutSection(doc: Document, name: string, s: Section, other: string)
    ensures FindSection(PutSection(doc, name, s), other) == if other == name then Some(s) else FindSection(doc, other)
  {
    if doc != [] {
      FindPutSection(doc[1..], name, s, other);
    }
  }

  lemma {:induction false} FindDropSection(doc: Document, name: string, other: string)
    ensures FindSection(DropSection(doc, name), other) == if other == name then None else FindSection(doc, other)
  {
    if doc != [] {
      FindDropSection(doc[1..], name, other);
    }
  }

  lemma {:induction false} DropPutSection(doc: Document, name: string, s: Section)
    ensures DropSection(PutSection(doc, name, s), name) == DropSection(doc, name)
  {
    if doc != [] {
      DropPutSection(doc[1..], name, s);
    }
  }

  lemma {:induction false} DropTwice(doc: Document, name: string)
    ensures DropSection(DropSection(doc, name), name) == DropSection(doc, name)
  {
    if doc != [] {
      DropTwice(doc[1..], name);
    }
  }

  // ---- The laws ----

  /** Two keys that share no spelling. */
  ghost predicate Independent(a: ConfigKey, b: ConfigKey) {
    a.section == b.section ==> forall n | n in Names(a) :: n !in Names(b)
  }

  /** `k` does not list its own name as an alias. */
  ghost predicate Proper(k: ConfigKey) { k.key !in k.aliases }

  lemma SetFieldsRead(fields: seq<Field>, k: ConfigKey, v: Value)
    requires Proper(k) && !v.Other?
    ensures ReadNames(SetFields(fields, k, v), Names(k)) == Ok(Some(v))
    ensures forall a | a in k.aliases :: FindField(SetFields(fields, k, v), a).None?
  {
    var kept := Without(fields, k.aliases);
    FindPut(kept, k.key, v, k.key);
    forall a | a in k.aliases
      ensures FindField(SetFields(fields, k, v), a).None?
    {
      FindPut(kept, k.key, v, a);
      FindWithout(fields, k.aliases, a);
    }
  }

  /** The item that decides what `k` reads: that under the first spelling present, if any. */
  ghost predicate Decides(doc: Document, k: ConfigKey, item: Option<Item>) {
    var s := FindSection(doc, k.section);
    if item.None? then s.None? || (!s.value.NotATable? && forall n | n in Names(k) :: FindField(s.value.fields, n).None?)
    else s.Some? && !s.value.NotATable?
         && exists i | 0 <= i < |Names(k)| :: FindField(s.value.fields, Names(k)[i]) == item
                       && forall j | 0 <= j < i :: FindField(s.value.fields, Names(k)[j]).None?
  }

  /**
    Reading, in terms of what is in the document: unset exactly when no
    spelling is present, a scalar exactly when the first spelling present holds
    it, and an error exactly when that holds anything else or the section is
    no table.
   */
  lemma ReadExactly(doc: Document, k: ConfigKey)
    ensures ReadValue(doc, k) == Ok(None) <==> Decides(doc, k, None)
    ensures forall item | Decides(doc, k, Some(item)) ::
              ReadValue(doc, k) == if item.Plain? && !item.value.Other? then Ok(Some(item.value)) else Err(ConfigError)
    ensures FindSection(doc, k.section).Some? && FindSection(doc, k.section).value.NotATable? ==>
              ReadValue(doc, k) == Err(ConfigError)
  {
    var s := FindSection(doc, k.section);
    if s.Some? && IsTableLike(s.value) {
      ReadsUnsetExactlyWhen(s.value.fields, Names(k));
      forall item | Decides(doc, k, Some(item))
        ensures ReadValue(doc, k) == ReadItem(item)
      {
        var i :| 0 <= i < |Names(k)| && FindField(s.value.fields, Names(k)[i]) == Some(item)
                 && forall j | 0 <= j < i :: FindField(s.value.fields, Names(k)[j]).None?;
        ReadsFirstPresent(s.value.fields, Names(k), i);
      }
    }
  }

  /** What a successful `set` leaves behind, and what it reports. */
  lemma SetThenRead(doc: Document, k: ConfigKey, raw: string)
    requires Proper(k) && Set(doc, k, raw).Ok?
    ensures var e := Set(doc, k, raw).value;
            && ParseArgument(k, raw).Ok? && e.current == Some(ParseArgument(k, raw).value)
            && ReadValue(e.doc, k) == Ok(e.current)
            && Ok(e.previous) == ReadValue(doc, k)
            && !HasAlias(e.doc, k)
  {
    var v := ParseArgument(k, raw).value;
    var s := SectionOrNew(doc, k.section);
    if !(ReadValue(doc, k) == Ok(Some(v)) && !HasAlias(doc, k)) {
      FindPutSection(doc, k.section, s.(fields := SetFields(s.fields, k, v)), k.section);
      SetFieldsRead(s.fields, k, v);
    }
  }

  /** `set` fails exactly when the key cannot be read or the argument does not fit its type. */
  lemma SetFailsExactlyWhen(doc: Document, k: ConfigKey, raw: string)
    ensures Set(doc, k, raw).Err? <==> ReadValue(doc, k).Err? || ParseArgument(k, raw).Err?
  {
  }

  lemma OthersReadThroughSet(fields: seq<Field>, k: ConfigKey, v: Value, other: ConfigKey)
    requires k.section == other.section && Independent(k, other)
    ensures ReadNames(SetFields(fields, k, v), Names(other)) == ReadNames(fields, Names(other))
  {
    forall n | n in Names(other)
      ensures FindField(SetFields(fields, k, v), n) == FindField(fields, n)
    {
      assert k.key in Names(k) && forall a | a in k.aliases :: a in Names(k);
      FindPut(Without(fields, k.aliases), k.key, v, n);
      FindWithout(fields, k.aliases, n);
    }
    ReadNamesSame(SetFields(fields, k, v), fields, Names(other));
  }

  /** `set` changes what no other key reads, errors included. */
  lemma SetLeavesOthers(doc: Document, k: ConfigKey, raw: string, other: ConfigKey)
    requires Independent(k, other) && Set(doc, k, raw).Ok?
    ensures ReadValue(Set(doc, k, raw).value.doc, other) == ReadValue(doc, other)
  {
    var e := Set(doc, k, raw).value;
    if e.doc != doc {
      var v := ParseArgument(k, raw).value;
      var s := SectionOrNew(doc, k.section);
      FindPutSection(doc, k.section, s.(fields := SetFields(s.fields, k, v)), other.section);
      if other.section == k.section {
        OthersReadThroughSet(s.fields, k, v, other);
        ReadNamesNone([], Names(other));
      }
    }
  }

  /** Setting the same value again leaves the document as it is. */
  lemma SetTwice(doc: Document, k: ConfigKey, raw: string)
    requires Proper(k) && Set(doc, k, raw).Ok?
    ensures var e := Set(doc, k, raw).value;
            Set(e.doc, k, raw) == Ok(Edit(e.doc, e.current, e.current))
  {
    SetThenRead(doc, k, raw);
  }

  /** The fields of a section, none if it is missing. */
  function FieldsOf(doc: Document, name: string): seq<Field> {
    var s := FindSection(doc, name);
    if s.Some? && IsTableLike(s.value) then s.value.fields else []
  }

  /** The same kind of table, with the same comment of its own. */
  predicate SameFrame(a: Section, b: Section) {
    || (a.Table? && b.Table? && a.prefix == b.prefix)
    || (a.Inline? && b.Inline? && a.decor == b.decor)
  }

  /** Every section is in its place, and all but `name` are as they were. */
  predicate SamePlaces(a: Document, b: Document, name: string) {
    |a| == |b| && forall i | 0 <= i < |a| :: b[i].name == a[i].name && (a[i].name != name ==> b[i] == a[i])
  }

  lemma {:induction false} PutSectionPlace(doc: Document, name: string, s: Section)
    ensures if FindSection(doc, name).Some? then SamePlaces(doc, PutSection(doc, name, s), name)
            else PutSection(doc, name, s) == doc + [Entry(name, s)]
  {
    if doc != [] && doc[0].name != name {
      PutSectionPlace(doc[1..], name, s);
    }
  }

  /**
    Nothing but the key's own spellings is touched by `set`: every other
    section, and every other field of the key's section with its order, blanks
    and comments, is as before. The section itself keeps its place and its own
    comment; one that was missing is added at the end.
   */
  lemma SetTouchesOnlyItsKey(doc: Document, k: ConfigKey, raw: string)
    requires Set(doc, k, raw).Ok?
    ensures var doc' := Set(doc, k, raw).value.doc; var s, s' := FindSection(doc, k.section), FindSection(doc', k.section);
            && DropSection(doc', k.section) == DropSection(doc, k.section)
            && Without(FieldsOf(doc', k.section), Names(k)) == Without(FieldsOf(doc, k.section), Names(k))
            && s'.Some?
            && (if s.Some? then SamePlaces(doc, doc', k.section) && SameFrame(s.value, s'.value)
                else doc' == doc + [Entry(k.section, s'.value)] && SameFrame(Table(None, []), s'.value))
  {
    var v := ParseArgument(k, raw).value;
    if !(ReadValue(doc, k) == Ok(Some(v)) && !HasAlias(doc, k)) {
      var s := SectionOrNew(doc, k.section);
      var s' := s.(fields := SetFields(s.fields, k, v));
      DropPutSection(doc, k.section, s');
      FindPutSection(doc, k.section, s', k.section);
      PutSectionPlace(doc, k.section, s');
      WithoutPut(Without(s.fields, k.aliases), k.key, v, Names(k));
      WithoutTwice(s.fields, k.aliases, Names(k));
    }
  }

  /** Every field is in its place behind the same blanks, and all but `name` are as they were. */
  predicate SameOrder(a: seq<Field>, b: seq<Field>, name: string) {
    && |a| == |b|
    && forall i | 0 <= i < |a| :: b[i].name == a[i].name && b[i].leading == a[i].leading && (a[i].name != name ==> b[i] == a[i])
  }

  lemma {:induction false} WithoutAbsent(fields: seq<Field>, names: seq<string>)
    requires forall n | n in names :: FindField(fields, n).None?
    ensures Without(fields, names) == fields
  {
    if fields != [] {
      assert forall n | n in names :: FindField(fields, n).None? && fields[0].name != n;
      WithoutAbsent(fields[1..], names);
    }
  }

  lemma {:induction false} PutKeepsDecor(fields: seq<Field>, name: string, v: Value)
    requires FindField(fields, name).Some? && FindField(fields, name).value.Plain?
    ensures FindField(Put(fields, name, v), name) == Some(Plain(v, FindField(fields, name).value.decor))
    ensures |Put(fields, name, v)| == |fields|
    ensures SameOrder(fields, Put(fields, name, v), name)
  {
    if fields[0].name != name {
      PutKeepsDecor(fields[1..], name, v);
    }
  }

  /** An existing value is replaced where it stands among the fields left, and keeps its blanks and its comment. */
  lemma SetKeepsComment(doc: Document, k: ConfigKey, raw: string, item: Item)
    requires Proper(k) && Set(doc, k, raw).Ok?
    requires FindField(FieldsOf(doc, k.section), k.key) == Some(item) && item.Plain?
    ensures FindField(FieldsOf(Set(doc, k, raw).value.doc, k.section), k.key) ==
            Some(Plain(Set(doc, k, raw).value.current.value, item.decor))
    ensures SameOrder(Without(FieldsOf(doc, k.section), k.aliases), FieldsOf(Set(doc, k, raw).value.doc, k.section), k.key)
  {
    var e := Set(doc, k, raw).value;
    var s := SectionOrNew(doc, k.section);
    var v := ParseArgument(k, raw).value;
    if !(ReadValue(doc, k) == Ok(Some(v)) && !HasAlias(doc, k)) {
      FindPutSection(doc, k.section, s.(fields := SetFields(s.fields, k, v)), k.section);
      FindWithout(s.fields, k.aliases, k.key);
      PutKeepsDecor(Without(s.fields, k.aliases), k.key, v);
    } else {
      WithoutAbsent(s.fields, k.aliases);
    }
  }

  /** The section after `unset` removed the key's spellings. */
  function Stripped(doc: Document, k: ConfigKey): Section
    requires IsTableLike(SectionOrNew(doc, k.section))
  {
    var s := SectionOrNew(doc, k.section);
    s.(fields := Without(s.fields, Names(k)))
  }

  lemma StrippedReads(doc: Document, k: ConfigKey, other: ConfigKey)
    requires IsTableLike(SectionOrNew(doc, k.section)) && other.section == k.section
    requires other == k || Independent(k, other)
    ensures ReadNames(Stripped(doc, k).fields, Names(other)) ==
            if other == k then Ok(None) else ReadNames(SectionOrNew(doc, k.section).fields, Names(other))
  {
    var fields := SectionOrNew(doc, k.section).fields;
    forall n | n in Names(other)
      ensures FindField(Stripped(doc, k).fields, n) == if other == k then None else FindField(fields, n)
    {
      FindWithout(fields, Names(k), n);
    }
    if other == k {
      ReadNamesNone(Stripped(doc, k).fields, Names(other));
    } else {
      ReadNamesSame(Stripped(doc, k).fields, fields, Names(other));
    }
  }

  /**
    After a successful `unset` the key reads as unset under every spelling,
    and every other key reads as before, even when the emptied section went
    with it.
   */
  lemma UnsetThenRead(doc: Document, k: ConfigKey, other: ConfigKey)
    requires other == k || Independent(k, other)
    requires Unset(doc, k).Ok?
    ensures var e := Unset(doc, k).value;
            && Ok(e.previous) == ReadValue(doc, k) && e.current == None
            && ReadValue(e.doc, other) == if other == k then Ok(None) else ReadValue(doc, other)
  {
    var e := Unset(doc, k).value;
    if e.doc != doc {
      StrippedReads(doc, k, if other.section == k.section then other else k);
      var s' := Stripped(doc, k);
      FindPutSection(doc, k.section, s', other.section);
      FindDropSection(doc, k.section, other.section);
      ReadNamesNone([], Names(other));
    } else if other == k && e.previous.Some? {
      StrippedReads(doc, k, k);
      var s' := Stripped(doc, k);
      FindPutSection(doc, k.section, s', k.section);
      FindDropSection(doc, k.section, k.section);
    }
  }

  /**
    `unset` touches nothing but the key's own spellings, and takes the section
    along exactly if it emptied an uncommented table. A section that stays
    keeps its place and its own comment.
   */
  lemma UnsetTouchesOnlyItsKey(doc: Document, k: ConfigKey)
    requires Unset(doc, k).Ok?
    ensures var doc' := Unset(doc, k).value.doc;
            && DropSection(doc', k.section) == DropSection(doc, k.section)
            && FieldsOf(doc', k.section) ==
               (if Unset(doc, k).value.previous.None? then FieldsOf(doc, k.section) else Without(FieldsOf(doc, k.section), Names(k)))
            && (FindSection(doc, k.section).Some? ==>
                  (FindSection(doc', k.section).None? <==>
                    && Unset(doc, k).value.previous.Some? && Without(FieldsOf(doc, k.section), Names(k)) == []
                    && FindSection(doc, k.section).value.Table? && Blank(FindSection(doc, k.section).value.prefix)))
            && (FindSection(doc', k.section).Some? ==>
                  && FindSection(doc, k.section).Some? && SamePlaces(doc, doc', k.section)
                  && (doc' == doc || SameFrame(FindSection(doc, k.section).value, FindSection(doc', k.section).value)))
  {
    if Unset(doc, k).value.previous.Some? {
      var s' := Stripped(doc, k);
      DropPutSection(doc, k.section, s');
      DropTwice(doc, k.section);
      FindPutSection(doc, k.section, s', k.section);
      FindDropSection(doc, k.section, k.section);
      PutSectionPlace(doc, k.section, s');
    }
  }

  /** A comment in front of a section keeps the section. */
  lemma CommentKeepsSection(doc: Document, k: ConfigKey)
    requires Unset(doc, k).Ok? && FindSection(doc, k.section).Some?
    requires var s := FindSection(doc, k.section).value; s.Table? && s.prefix.Some? && '#' in s.prefix.value
    ensures FindSection(Unset(doc, k).value.doc, k.section).Some?
  {
    UnsetTouchesOnlyItsKey(doc, k);
    var p := FindSection(doc, k.section).value.prefix.value;
    var i :| 0 <= i < |p| && p[i] == '#';
    assert !IsWhitespace(p[i]);
  }

  /** After `set` the value stands under the key's own name, and under no other spelling. */
  lemma SetLeavesOneSpelling(doc: Document, k: ConfigKey, raw: string)
    requires Proper(k) && Set(doc, k, raw).Ok?
    ensures var e := Set(doc, k, raw).value; var fields := FieldsOf(e.doc, k.section);
            && FindField(fields, k.key).Some? && FindField(fields, k.key).value.Plain?
            && Some(FindField(fields, k.key).value.value) == e.current
            && forall a | a in k.aliases :: FindField(fields, a).None?
  {
    var v := ParseArgument(k, raw).value;
    var s := SectionOrNew(doc, k.section);
    if ReadValue(doc, k) == Ok(Some(v)) && !HasAlias(doc, k) {
      assert Names(k)[0] == k.key;
      if FindField(s.fields, k.key).None? {
        ReadsUnsetExactlyWhen(s.fields, Names(k));
        assert false;
      }
      ReadsFirstPresent(s.fields, Names(k), 0);
    } else {
      FindPutSection(doc, k.section, s.(fields := SetFields(s.fields, k, v)), k.section);
      SetFieldsRead(s.fields, k, v);
      FindPut(Without(s.fields, k.aliases), k.key, v, k.key);
    }
  }

  lemma {:induction false} PutAppends(fields: seq<Field>, name: string, v: Value)
    requires FindField(fields, name).None?
    ensures Put(fields, name, v) == fields + [Field(name, "", Plain(v, ""))]
  {
    if fields != [] {
      PutAppends(fields[1..], name, v);
    }
  }

  /** A key that was not there under its own name is added behind the fields left. */
  lemma SetAppendsNew(doc: Document, k: ConfigKey, raw: string)
    requires Proper(k) && Set(doc, k, raw).Ok? && FindField(FieldsOf(doc, k.section), k.key).None?
    ensures FieldsOf(Set(doc, k, raw).value.doc, k.section) ==
            Without(FieldsOf(doc, k.section), k.aliases) + [Field(k.key, "", Plain(ParseArgument(k, raw).value, ""))]
  {
    var v := ParseArgument(k, raw).value;
    var s := SectionOrNew(doc, k.section);
    if ReadValue(doc, k) == Ok(Some(v)) && !HasAlias(doc, k) {
      ReadsUnsetExactlyWhen(s.fields, Names(k));
      assert false;
    }
    FindPutSection(doc, k.section, s.(fields := SetFields(s.fields, k, v)), k.section);
    FindWithout(s.fields, k.aliases, k.key);
    PutAppends(Without(s.fields, k.aliases), k.key, v);
  }

  /** After `unset` no spelling of the key is left. */
  lemma UnsetLeavesNoSpelling(doc: Document, k: ConfigKey)
    requires Unset(doc, k).Ok?
    ensures forall n | n in Names(k) :: FindField(FieldsOf(Unset(doc, k).value.doc, k.section), n).None?
  {
    UnsetThenRead(doc, k, k);
    ReadsUnsetExactlyWhen(FieldsOf(Unset(doc, k).value.doc, k.section), Names(k));
    forall n | n in Names(k) ensures FindField([], n).None? {
    }
  }

  // ---- What is read can be set again ----

  function Show(n: nat): (s: string)
    ensures s != [] && forall i | 0 <= i < |s| :: IsDigit(s[i])
  {
    if n < 10 then ['0' + n as char] else Show(n / 10) + ['0' + (n % 10) as char]
  }

  lemma {:induction false} ShowThenParse(n: nat)
    ensures Digits(Show(n)) == n
  {
    if n < 10 {
      assert Show(n)[..0] == [];
    } else {
      ShowThenParse(n / 10);
      assert Show(n)[..|Show(n)| - 1] == Show(n / 10);
    }
  }

  /** A decimal without a needless zero is what its number is written as. */
  lemma {:induction false} ParseThenShow(s: string)
    requires AllDigits(s) && (|s| > 1 ==> s[0] != '0')
    ensures Show(Digits(s)) == s
    ensures |s| > 1 ==> Digits(s) >= 10
  {
    var front, last := s[..|s| - 1], s[|s| - 1];
    assert IsDigit(last);
    if |s| == 1 {
      assert front == [];
    } else {
      assert forall i | 0 <= i < |front| :: front[i] == s[i];
      ParseThenShow(front);
      if |front| == 1 {
        assert Show(Digits(front)) == front && front[0] != '0';
        assert front[..0] == [];
      }
      var d := last as int - '0' as int;
      assert Digits(s) == Digits(front) * 10 + d;
      assert Digits(s) / 10 == Digits(front) && Digits(s) % 10 == d;
      assert s == front + [last];
    }
  }

  lemma {:induction false} LeadingZero(s: string)
    requires AllDigits(s)
    ensures Digits(['0'] + s) == Digits(s)
  {
    var z := ['0'] + s;
    assert z[..|z| - 1] == ['0'] + s[..|s| - 1];
    if |s| > 1 {
      assert forall i | 0 <= i < |s| - 1 :: s[..|s| - 1][i] == s[i];
      LeadingZero(s[..|s| - 1]);
    } else {
      assert s[..0] == [] && z[..1] == ['0'] && ['0'][..0] == [];
      assert Digits(['0']) == 0;
    }
  }

  /** A number argument is decimal digits, with or without a plus sign, in the range of 64 bits. */
  lemma ParseExactly(raw: string, n: nat)
    ensures ParseU64(raw) == Some(n) <==>
            n < 0x1_0000_0000_0000_0000
            && exists body :: AllDigits(body) && (raw == body || raw == ['+'] + body) && Digits(body) == n
  {
    if ParseU64(raw) == Some(n) {
      var body := if |raw| > 1 && raw[0] == '+' then raw[1..] else raw;
      assert AllDigits(body) && (raw == body || raw == ['+'] + body);
    }
    if exists body :: AllDigits(body) && (raw == body || raw == ['+'] + body) && Digits(body) == n {
      var body :| AllDigits(body) && (raw == body || raw == ['+'] + body) && Digits(body) == n;
      assert IsDigit(body[0]);
      if raw == ['+'] + body {
        assert raw[1..] == body;
      }
    }
  }

  /** What a key accepts, for each type. */
  lemma AcceptsExactly(k: ConfigKey, raw: string)
    ensures ParseArgument(k, raw).Ok? <==>
            match k.ty
            case StrKey => k.choices == [] || raw in k.choices
            case IntKey => ParseU64(raw).Some? && ParseU64(raw).value < 0x8000_0000_0000_0000
            case BoolKey => raw == "true" || raw == "false"
    ensures ParseArgument(k, raw).Ok? ==>
            match k.ty
            case StrKey => ParseArgument(k, raw).value == Text(raw)
            case IntKey => ParseArgument(k, raw).value == Int(ParseU64(raw).value)
            case BoolKey => ParseArgument(k, raw).value == Bool(raw == "true")
  {
  }

  /** A value a key of this type can be set to. */
  predicate Fits(k: ConfigKey, v: Value) {
    match k.ty
    case StrKey => v.Text? && (k.choices == [] || v.text in k.choices)
    case IntKey => v.Int? && 0 <= v.n < 0x8000_0000_0000_0000
    case BoolKey => v.Bool?
  }

  /** The argument that stands for a value. */
  function Render(v: Value): string {
    match v
    case Text(text) => text
    case Int(n) => if n < 0 then "" else Show(n)
    case Bool(b) => if b then "true" else "false"
    case Other(_) => ""
  }

  /** The arguments a key accepts stand for exactly the values that fit it. */
  lemma ArgumentsAreValues(k: ConfigKey, raw: string, v: Value)
    ensures ParseArgument(k, raw).Ok? ==> Fits(k, ParseArgument(k, raw).value)
    ensures Fits(k, v) ==> ParseArgument(k, Render(v)) == Ok(v)
  {
    if Fits(k, v) && v.Int? {
      ShowThenParse(v.n);
      assert Show(v.n)[0] != '+' by { assert IsDigit(Show(v.n)[0]); }
    }
  }

  /** Setting a key to the value it already reads only ever tidies up old spellings. */
  lemma SettingWhatIsRead(doc: Document, k: ConfigKey, v: Value)
    requires Proper(k) && ReadValue(doc, k) == Ok(Some(v)) && Fits(k, v)
    ensures var r := Set(doc, k, Render(v));
            r.Ok? && r.value.previous == r.value.current && ReadValue(r.value.doc, k) == ReadValue(doc, k)
            && (!HasAlias(doc, k) ==> r.value.doc == doc)
  {
    ArgumentsAreValues(k, Render(v), v);
    SetThenRead(doc, k, Render(v));
  }

  // ---- The edits as the editor performs them ----

  /** `set`, working on a parsed copy of the document. */
  method SetInPlace(text: Document, k: ConfigKey, raw: string) returns (r: Result<Edit>)
    ensures r == Set(text, k, raw)
  {
    var doc := text;
    var previous := ReadValue(doc, k);
    if previous.Err? {
      return Err(previous.error);
    }
    var value := ParseArgument(k, raw);
    if value.Err? {
      return Err(value.error);
    }
    if previous.value == Some(value.value) && !HasAlias(doc, k) {
      return Ok(Edit(text, previous.value, Some(value.value)));
    }
    var section := SectionOrNew(doc, k.section);
    if !IsTableLike(section) {
      return Err(ConfigError);
    }
    var fields := section.fields;
    WithoutNothing(section.fields);
    for i := 0 to |k.aliases|
      invariant fields == Without(section.fields, k.aliases[..i])
    {
      WithoutConcat(section.fields, k.aliases[..i], k.aliases[i]);
      assert k.aliases[..i + 1] == k.aliases[..i] + [k.aliases[i]];
      fields := Remove(fields, k.aliases[i]);
    }
    assert k.aliases[..|k.aliases|] == k.aliases;
    fields := Put(fields, k.key, value.value);
    doc := PutSection(doc, k.section, section.(fields := fields));
    return Ok(Edit(doc, previous.value, Some(value.value)));
  }

  lemma {:induction false} WithoutNothing(fields: seq<Field>)
    ensures Without(fields, []) == fields
  {
    if fields != [] {
      WithoutNothing(fields[1..]);
    }
  }

  /** `unset`, working on a parsed copy of the document. */
  method UnsetInPlace(text: Document, k: ConfigKey) returns (r: Result<Edit>)
    ensures r == Unset(text, k)
  {
    var doc := text;
    var previous := ReadValue(doc, k);
    if previous.Err? {
      return Err(previous.error);
    }
    if previous.value.None? {
      return Ok(Edit(text, None, None));
    }
    var section := SectionOrNew(doc, k.section);
    if IsTableLike(section) {
      var fields := Remove(section.fields, k.key);
      assert [k.key] + k.aliases[..0] == [k.key];
      for i := 0 to |k.aliases|
        invariant fields == Without(section.fields, [k.key] + k.aliases[..i])
      {
        WithoutConcat(section.fields, [k.key] + k.aliases[..i], k.aliases[i]);
        assert [k.key] + k.aliases[..i + 1] == [k.key] + k.aliases[..i] + [k.aliases[i]];
        fields := Remove(fields, k.aliases[i]);
      }
      assert k.aliases[..|k.aliases|] == k.aliases;
      section := section.(fields := fields);
      doc := PutSection(doc, k.section, section);
      if section.Table? && section.fields == [] && Blank(section.prefix) {
        DropPutSection(text, k.section, section);
        doc := DropSection(doc, k.section);
      }
    }
    return Ok(Edit(doc, previous.value, None));
  }
}
