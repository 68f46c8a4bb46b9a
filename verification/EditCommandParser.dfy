/** The parser of the edit command's arguments: structural checks on the
    tokenized arguments, the descriptor of supplied fields, the rejection of
    an edit that supplies nothing, and the choice between editing by id and
    editing by index. */
module EditCommandParser {
  import opened Wrappers
  import opened Fields
  import opened Members
  import opened EditCommands

  /** The prefixes the arguments are split on. The reservation prefix is not
      one of them, so an edit never sets reservations. */
  datatype Prefix =
    | MemberMarker
    | IdPrefix
    | IndexPrefix
    | NamePrefix
    | PhonePrefix
    | EmailPrefix
    | AddressPrefix
    | TagPrefix
    | TransactionPrefix

  /** The tokenizer's output: the text before the first prefix, and the
      values given for each prefix, in order. */
  datatype ArgumentMultimap = ArgumentMultimap(preamble: string, values: map<Prefix, seq<string>>) {

    predicate IsPresent(p: Prefix) {
      p in values && values[p] != []
    }

    /** The last value given for a prefix. */
    function GetValue(p: Prefix): (r: Option<string>)
      ensures r.Some? <==> IsPresent(p)
      ensures r.Some? ==> r.value == GetAllValues(p)[|GetAllValues(p)| - 1]
    {
      if IsPresent(p) then Some(values[p][|values[p]| - 1]) else None
    }

    /** All the values given for a prefix. */
    function GetAllValues(p: Prefix): (r: seq<string>)
      ensures r == [] <==> !IsPresent(p)
    {
      if p in values then values[p] else []
    }

    /** The number of entries of the tokenizer's map: the preamble, which
        the tokenizer always stores under the empty prefix, and one entry per
        prefix that was given. */
    function Size(): nat {
      1 + |set p | p in values && values[p] != []|
    }
  }

  /** The least number of entries an edit's arguments may have. */
  const PrefixSize := 3

  /** The field parsers the command relies on. Each takes the raw text and
      yields the value, or nothing when the text breaks the field's format
      rule; `index` yields the zero-based position a one-based index names. */
  datatype FieldParsers = FieldParsers(
    id: string -> Option<Id>,
    index: string -> Option<nat>,
    name: string -> Option<Name>,
    phone: string -> Option<Phone>,
    email: string -> Option<Email>,
    address: string -> Option<Address>,
    tag: string -> Option<Tag>,
    transaction: string -> Option<Transaction>)

  datatype Field = IdField | IndexField | NameField | PhoneField | EmailField | AddressField | TagField | TransactionField

  /** The errors parsing reports. */
  datatype ParseError =
    | InvalidCommandFormat      // the arguments do not have the shape the usage text describes
    | NotEdited                 // no field to edit was given
    | Constraint(field: Field)  // a value breaks its field's format rule

  /** The arguments have at least three entries, the member marker is
      given, exactly one of id and index is given, and there is no
      preamble. */
  predicate StructurallyValid(args: ArgumentMultimap) {
    && args.Size() >= PrefixSize
    && args.IsPresent(MemberMarker)
    && (args.IsPresent(IdPrefix) != args.IsPresent(IndexPrefix))
    && args.preamble == ""
  }

  /** Some field to edit is given. */
  predicate SuppliesAnyField(args: ArgumentMultimap) {
    || args.IsPresent(NamePrefix)
    || args.IsPresent(PhonePrefix)
    || args.IsPresent(EmailPrefix)
    || args.IsPresent(AddressPrefix)
    || args.IsPresent(TagPrefix)
    || args.IsPresent(TransactionPrefix)
  }

  /** The values the arguments give for a field all parse: the name, phone,
      email, address or locator when given, and each tag or transaction
      unless the set is being cleared. */
  predicate FieldParses(p: FieldParsers, args: ArgumentMultimap, f: Field) {
    match f
    case NameField => args.IsPresent(NamePrefix) ==> p.name(args.GetValue(NamePrefix).value).Some?
    case PhoneField => args.IsPresent(PhonePrefix) ==> p.phone(args.GetValue(PhonePrefix).value).Some?
    case EmailField => args.IsPresent(EmailPrefix) ==> p.email(args.GetValue(EmailPrefix).value).Some?
    case AddressField => args.IsPresent(AddressPrefix) ==> p.address(args.GetValue(AddressPrefix).value).Some?
    case TagField =>
      var tags := args.GetAllValues(TagPrefix);
      tags != [""] ==> forall i :: 0 <= i < |tags| ==> p.tag(tags[i]).Some?
    case TransactionField =>
      var transactions := args.GetAllValues(TransactionPrefix);
      transactions != [""] ==> forall i :: 0 <= i < |transactions| ==> p.transaction(transactions[i]).Some?
    case IdField => args.IsPresent(IdPrefix) ==> p.id(args.GetValue(IdPrefix).value).Some?
    case IndexField => args.IsPresent(IndexPrefix) ==> p.index(args.GetValue(IndexPrefix).value).Some?
  }

  /** The order fields are parsed in: name, phone, email, address, tags,
      transactions, then the locator (only one of id and index is given). */
  function ParseOrder(f: Field): nat {
    match f
    case NameField => 0
    case PhoneField => 1
    case EmailField => 2
    case AddressField => 3
    case TagField => 4
    case TransactionField => 5
    case IdField => 6
    case IndexField => 6
  }

  /** Every value given for a field to edit parses. */
  predicate EditedValuesParse(p: FieldParsers, args: ArgumentMultimap) {
    && FieldParses(p, args, NameField)
    && FieldParses(p, args, PhoneField)
    && FieldParses(p, args, EmailField)
    && FieldParses(p, args, AddressField)
    && FieldParses(p, args, TagField)
    && FieldParses(p, args, TransactionField)
  }

  /** Every value the arguments give parses, the locator included. */
  predicate ValuesParse(p: FieldParsers, args: ArgumentMultimap) {
    && EditedValuesParse(p, args)
    && FieldParses(p, args, IdField)
    && FieldParses(p, args, IndexField)
  }

  /** One value, parsed with the field's parser. */
  function ParseValue<T>(raw: string, parse: string -> Option<T>, field: Field): (r: Result<T, ParseError>)
    ensures r.Success? <==> parse(raw).Some?
    ensures r.Success? ==> parse(raw) == Some(r.value)
    ensures r.Failure? ==> r.error == Constraint(field)
  {
    match parse(raw)
    case Some(v) => Success(v)
    case None => Failure(Constraint(field))
  }

  /** An optional value: absent stays absent, present is parsed. */
  function ParseOptional<T>(raw: Option<string>, parse: string -> Option<T>, field: Field)
    : (r: Result<Option<T>, ParseError>)
    ensures raw.None? ==> r == Success(None)
    ensures raw.Some? ==> (r.Success? <==> parse(raw.value).Some?)
    ensures raw.Some? && r.Success? ==> r.value == parse(raw.value)
    ensures r.Failure? ==> r.error == Constraint(field)
  {
    match raw
    case None => Success(None)
    case Some(s) =>
      var v :- ParseValue(s, parse, field);
      Success(Some(v))
  }

  /** Every value of a list, parsed and gathered into a set; the first value
      that breaks the format rule fails the whole list. */
  function ParseAll<T(!new)>(parse: string -> Option<T>, raws: seq<string>, field: Field)
    : (r: Result<set<T>, ParseError>)
    ensures r.Success? <==> forall i :: 0 <= i < |raws| ==> parse(raws[i]).Some?
    ensures r.Success? ==> forall x :: x in r.value <==> exists i :: 0 <= i < |raws| && parse(raws[i]) == Some(x)
    ensures r.Failure? ==> r.error == Constraint(field)
    decreases |raws|
  {
    if raws == [] then Success({})
    else
      var first :- ParseValue(raws[0], parse, field);
      var rest :- ParseAll(parse, raws[1..], field);
      assert forall i :: 1 <= i < |raws| ==> raws[i] == raws[1..][i - 1];
      Success({first} + rest)
  }

  /** The values given for a set field: none leaves the set unedited, the
      single value "" clears it, and anything else replaces it with the set
      of parsed values. */
  function ParseSetForEdit<T(!new)>(parse: string -> Option<T>, raws: seq<string>, field: Field)
    : (r: Result<Option<set<T>>, ParseError>)
    ensures raws == [] ==> r == Success(None)
    ensures raws == [""] ==> r == Success(Some({}))
    ensures raws != [] && raws != [""] ==>
              (r.Success? <==> forall i :: 0 <= i < |raws| ==> parse(raws[i]).Some?)
    ensures raws != [] && raws != [""] && r.Success? ==>
              && r.value.Some?
              && forall x :: x in r.value.value <==> exists i :: 0 <= i < |raws| && parse(raws[i]) == Some(x)
    ensures r.Failure? ==> r.error == Constraint(field)
  {
    if raws == [] then Success(None)
    else
      var values := if raws == [""] then [] else raws;
      var parsed :- ParseAll(parse, values, field);
      Success(Some(parsed))
  }

  /** The tag values of an edit. */
  function ParseTagsForEdit(p: FieldParsers, raws: seq<string>): (r: Result<Option<set<Tag>>, ParseError>)
    ensures raws == [] ==> r == Success(None)
    ensures raws == [""] ==> r == Success(Some({}))
    ensures raws != [] && raws != [""] ==>
              (r.Success? <==> forall i :: 0 <= i < |raws| ==> p.tag(raws[i]).Some?)
    ensures raws != [] && raws != [""] && r.Success? ==>
              && r.value.Some?
              && forall t :: t in r.value.value <==> exists i :: 0 <= i < |raws| && p.tag(raws[i]) == Some(t)
    ensures r.Failure? ==> r.error == Constraint(TagField)
  {
    ParseSetForEdit(p.tag, raws, TagField)
  }

  /** The transaction values of an edit. */
  function ParseTransactionsForEdit(p: FieldParsers, raws: seq<string>)
    : (r: Result<Option<set<Transaction>>, ParseError>)
    ensures raws == [] ==> r == Success(None)
    ensures raws == [""] ==> r == Success(Some({}))
    ensures raws != [] && raws != [""] ==>
              (r.Success? <==> forall i :: 0 <= i < |raws| ==> p.transaction(raws[i]).Some?)
    ensures raws != [] && raws != [""] && r.Success? ==>
              && r.value.Some?
              && forall t :: t in r.value.value <==> exists i :: 0 <= i < |raws| && p.transaction(raws[i]) == Some(t)
    ensures r.Failure? ==> r.error == Constraint(TransactionField)
  {
    ParseSetForEdit(p.transaction, raws, TransactionField)
  }

  /** `got` is what the optional raw value parses to: absent when the value
      is absent. */
  predicate ParsedFrom<T(==)>(raw: Option<string>, parse: string -> Option<T>, got: Option<T>) {
    if raw.Some? then got.Some? && parse(raw.value) == got else got.None?
  }

  /** The name, phone, email and address the arguments give, parsed in
      that order, in a descriptor that edits nothing else; the first value
      that does not parse fails the whole with that field's error. */
  function ParseContacts(p: FieldParsers, args: ArgumentMultimap): (r: Result<EditDescriptor, ParseError>)
    ensures r.Success? <==>
              && FieldParses(p, args, NameField)
              && FieldParses(p, args, PhoneField)
              && FieldParses(p, args, EmailField)
              && FieldParses(p, args, AddressField)
    ensures r.Failure? ==>
              && r.error.Constraint?
              && ParseOrder(r.error.field) < 4
              && !FieldParses(p, args, r.error.field)
              && forall g :: ParseOrder(g) < ParseOrder(r.error.field) ==> FieldParses(p, args, g)
    ensures r.Success? ==>
              var d := r.value;
              && ParsedFrom(args.GetValue(NamePrefix), p.name, d.name)
              && ParsedFrom(args.GetValue(PhonePrefix), p.phone, d.phone)
              && ParsedFrom(args.GetValue(EmailPrefix), p.email, d.email)
              && ParsedFrom(args.GetValue(AddressPrefix), p.address, d.address)
              && d.tags.None? && d.transactions.None? && d.reservations.None?
  {
    var name :- ParseOptional(args.GetValue(NamePrefix), p.name, NameField);
    var phone :- ParseOptional(args.GetValue(PhonePrefix), p.phone, PhoneField);
    var email :- ParseOptional(args.GetValue(EmailPrefix), p.email, EmailField);
    var address :- ParseOptional(args.GetValue(AddressPrefix), p.address, AddressField);
    Success(EditDescriptor(name, phone, email, address, None, None, None))
  }

  /** The tags and transactions the arguments give, parsed in that order,
      in a descriptor that edits nothing else; the first value that does not
      parse fails the whole with that field's error. */
  function ParseSets(p: FieldParsers, args: ArgumentMultimap): (r: Result<EditDescriptor, ParseError>)
    ensures r.Success? <==> FieldParses(p, args, TagField) && FieldParses(p, args, TransactionField)
    ensures r.Failure? ==>
              && (r.error == Constraint(TagField) || r.error == Constraint(TransactionField))
              && !FieldParses(p, args, r.error.field)
              && (r.error == Constraint(TransactionField) ==> FieldParses(p, args, TagField))
    ensures r.Success? ==>
              var d := r.value;
              && Success(d.tags) == ParseTagsForEdit(p, args.GetAllValues(TagPrefix))
              && Success(d.transactions) == ParseTransactionsForEdit(p, args.GetAllValues(TransactionPrefix))
              && d.name.None? && d.phone.None? && d.email.None? && d.address.None? && d.reservations.None?
  {
    var tags :- ParseTagsForEdit(p, args.GetAllValues(TagPrefix));
    var transactions :- ParseTransactionsForEdit(p, args.GetAllValues(TransactionPrefix));
    Success(EditDescriptor(None, None, None, None, tags, transactions, None))
  }

  /** The descriptor of the fields to edit the arguments give. The fields
      are parsed in order, and the first value that does not parse fails
      the whole with that field's error. */
  function ParseDescriptor(p: FieldParsers, args: ArgumentMultimap): (r: Result<EditDescriptor, ParseError>)
    ensures r.Success? <==> EditedValuesParse(p, args)
    ensures r.Failure? ==>
              && r.error.Constraint?
              && ParseOrder(r.error.field) < 6
              && !FieldParses(p, args, r.error.field)
              && forall g :: ParseOrder(g) < ParseOrder(r.error.field) ==> FieldParses(p, args, g)
    ensures r.Success? ==> (r.value.IsAnyFieldEdited() <==> SuppliesAnyField(args))
    ensures r.Success? ==>
              var d := r.value;
              && ParsedFrom(args.GetValue(NamePrefix), p.name, d.name)
              && ParsedFrom(args.GetValue(PhonePrefix), p.phone, d.phone)
              && ParsedFrom(args.GetValue(EmailPrefix), p.email, d.email)
              && ParsedFrom(args.GetValue(AddressPrefix), p.address, d.address)
              && Success(d.tags) == ParseTagsForEdit(p, args.GetAllValues(TagPrefix))
              && Success(d.transactions) == ParseTransactionsForEdit(p, args.GetAllValues(TransactionPrefix))
              && d.reservations.None?
  {
    var contacts :- ParseContacts(p, args);
    var sets :- ParseSets(p, args);
    Success(contacts.(tags := sets.tags, transactions := sets.transactions))
  }

  /** Parses the tokenized arguments of an edit command. */
  function Parse(p: FieldParsers, args: ArgumentMultimap): (r: Result<EditCommand, ParseError>)
    ensures !StructurallyValid(args) ==> r == Failure(InvalidCommandFormat)
    ensures StructurallyValid(args) && !SuppliesAnyField(args) ==> r == Failure(NotEdited)
    ensures r.Success? <==> StructurallyValid(args) && SuppliesAnyField(args) && ValuesParse(p, args)
    ensures StructurallyValid(args) && SuppliesAnyField(args) && r.Failure? ==>
              && r.error.Constraint?
              && !FieldParses(p, args, r.error.field)
              && forall g :: ParseOrder(g) < ParseOrder(r.error.field) ==> FieldParses(p, args, g)
    ensures r.Success? ==> HasOneLocator(r.value) && (r.value.id.Some? <==> args.IsPresent(IdPrefix))
    ensures r.Success? && args.IsPresent(IdPrefix) ==> r.value.id == p.id(args.GetValue(IdPrefix).value)
    ensures r.Success? && args.IsPresent(IndexPrefix) ==> r.value.index == p.index(args.GetValue(IndexPrefix).value)
    ensures r.Success? ==>
              var d := r.value.descriptor;
              && d.IsAnyFieldEdited()
              && ParsedFrom(args.GetValue(NamePrefix), p.name, d.name)
              && ParsedFrom(args.GetValue(PhonePrefix), p.phone, d.phone)
              && ParsedFrom(args.GetValue(EmailPrefix), p.email, d.email)
              && ParsedFrom(args.GetValue(AddressPrefix), p.address, d.address)
              && Success(d.tags) == ParseTagsForEdit(p, args.GetAllValues(TagPrefix))
              && Success(d.transactions) == ParseTransactionsForEdit(p, args.GetAllValues(TransactionPrefix))
              && d.reservations.None?
  {
    if !StructurallyValid(args) then Failure(InvalidCommandFormat)
    else
      var d :- ParseDescriptor(p, args);
      if !d.IsAnyFieldEdited() then Failure(NotEdited)
      else if args.IsPresent(IdPrefix) then
        var id :- ParseValue(args.GetValue(IdPrefix).value, p.id, IdField);
        Success(EditById(id, d))
      else if args.IsPresent(IndexPrefix) then
        var index :- ParseValue(args.GetValue(IndexPrefix).value, p.index, IndexField);
        Success(EditByIndex(index, d))
      else Failure(InvalidCommandFormat)
  }

  /** The structural checks come before any value is parsed: arguments that
      fail them fail in the same way whatever the field parsers are. */
  lemma StructureCheckedFirst(p: FieldParsers, q: FieldParsers, args: ArgumentMultimap)
    requires !StructurallyValid(args)
    ensures Parse(p, args) == Parse(q, args) == Failure(InvalidCommandFormat)
  {
  }

  /** An edit that gives no field is rejected whatever its locator is, even
      one the id or index parser would reject. */
  lemma NothingToEditIgnoresLocator(p: FieldParsers, args: ArgumentMultimap)
    requires StructurallyValid(args) && !SuppliesAnyField(args)
    ensures Parse(p, args) == Failure(NotEdited)
  {
  }

  /** The size check adds nothing to the other structural checks: the
      preamble entry, the member marker and the one locator already make
      three entries. */
  lemma SizeCheckSubsumed(args: ArgumentMultimap)
    ensures StructurallyValid(args) <==>
              && args.IsPresent(MemberMarker)
              && (args.IsPresent(IdPrefix) != args.IsPresent(IndexPrefix))
              && args.preamble == ""
  {
    if args.IsPresent(MemberMarker) && args.IsPresent(IdPrefix) != args.IsPresent(IndexPrefix) {
      var locator := if args.IsPresent(IdPrefix) then IdPrefix else IndexPrefix;
      var given := set q | q in args.values && args.values[q] != [];
      assert MemberMarker in given && locator in given;
      assert |{MemberMarker, locator}| == 2;
      SubsetSize({MemberMarker, locator}, given);
    }
  }

  /** An edit that gives the member marker and an index and nothing else
      passes the structural checks and is rejected as editing nothing. */
  lemma IndexOnlyEditNotEdited(p: FieldParsers, marker: string, index: string)
    ensures var args := ArgumentMultimap("", map[MemberMarker := [marker], IndexPrefix := [index]]);
            && StructurallyValid(args)
            && !SuppliesAnyField(args)
            && Parse(p, args) == Failure(NotEdited)
  {
    var args := ArgumentMultimap("", map[MemberMarker := [marker], IndexPrefix := [index]]);
    assert args.IsPresent(MemberMarker) && args.IsPresent(IndexPrefix) && !args.IsPresent(IdPrefix);
    SizeCheckSubsumed(args);
    NothingToEditIgnoresLocator(p, args);
  }

  // Writing a command back out as arguments.

  /** The members of a set, in some order. */
  ghost function Listing<T(!new)>(s: set<T>): (r: seq<T>)
    ensures forall x :: x in r <==> x in s
    decreases s
  {
    if s == {} then []
    else
      var x :| x in s;
      [x] + Listing(s - {x})
  }

  /** The texts of the members of a set, in the order `Listing` gives. */
  ghost function TextListing<T(!new)>(s: set<T>, text: T -> string): (r: seq<string>)
    ensures |r| == |Listing(s)|
    ensures forall i :: 0 <= i < |r| ==> r[i] == text(Listing(s)[i])
  {
    var l := Listing(s);
    seq(|l|, i requires 0 <= i < |l| => text(l[i]))
  }

  /** The values that stand for a set field: the sentinel "" for an empty
      set, else the texts of its members. */
  ghost function SetValues<T(!new)>(s: set<T>, text: T -> string): (r: seq<string>)
    ensures r != []
  {
    if s == {} then [""]
    else
      var x :| x in s;
      assert x in Listing(s);
      TextListing(s, text)
  }

  /** The values a set is written out as parse back to the set, when the
      parser reads back every member's text and no member has the empty
      text the clearing sentinel uses. */
  lemma SetReadBack<T(!new)>(parse: string -> Option<T>, text: T -> string, s: set<T>, field: Field)
    requires forall x :: x in s ==> text(x) != "" && parse(text(x)) == Some(x)
    ensures ParseSetForEdit(parse, SetValues(s, text), field) == Success(Some(s))
  {
    if s != {} {
      var l := Listing(s);
      var raws := TextListing(s, text);
      assert SetValues(s, text) == raws;
      var x :| x in s;
      assert x in l;
      assert |raws| > 0 && raws[0] == text(l[0]) && l[0] in s;
      assert raws[0] != "";
      forall j | 0 <= j < |raws|
        ensures parse(raws[j]) == Some(l[j])
      {
        assert l[j] in s;
      }
      var r := ParseAll(parse, raws, field);
      assert r.Success?;
      forall y
        ensures y in r.value <==> y in s
      {
        if y in s {
          assert y in l;
          var j :| 0 <= j < |l| && l[j] == y;
          assert parse(raws[j]) == Some(y);
        }
        if y in r.value {
          var j :| 0 <= j < |raws| && parse(raws[j]) == Some(y);
          assert y == l[j];
        }
      }
      assert r.value == s;
    }
  }

  const AllPrefixes: set<Prefix> := {
    MemberMarker, IdPrefix, IndexPrefix, NamePrefix, PhonePrefix,
    EmailPrefix, AddressPrefix, TagPrefix, TransactionPrefix}

  /** The values a command is written out as under one prefix: the member
      marker with an empty value, the locator (an index written one-based),
      and the values of each supplied field. */
  ghost function UnparsedValues(c: EditCommand, q: Prefix): Option<seq<string>> {
    var d := c.descriptor;
    match q
    case MemberMarker => Some([""])
    case IdPrefix => if c.id.Some? then Some([c.id.value.text]) else None
    case IndexPrefix => if c.index.Some? then Some([IntText(c.index.value + 1)]) else None
    case NamePrefix => if d.name.Some? then Some([d.name.value.text]) else None
    case PhonePrefix => if d.phone.Some? then Some([d.phone.value.text]) else None
    case EmailPrefix => if d.email.Some? then Some([d.email.value.text]) else None
    case AddressPrefix => if d.address.Some? then Some([d.address.value.text]) else None
    case TagPrefix => if d.tags.Some? then Some(SetValues(d.tags.value, TagText)) else None
    case TransactionPrefix =>
      if d.transactions.Some? then Some(SetValues(d.transactions.value, TransactionText)) else None
  }

  /** The arguments that ask for a command. */
  ghost function Unparse(c: EditCommand): ArgumentMultimap {
    ArgumentMultimap("", map q | q in AllPrefixes && UnparsedValues(c, q).Some? :: UnparsedValues(c, q).value)
  }

  /** Under each prefix, the arguments a command is written out as hold
      exactly the values written for it. */
  lemma UnparseHolds(c: EditCommand, q: Prefix)
    ensures var args := Unparse(c);
            && args.preamble == ""
            && (args.IsPresent(q) <==> UnparsedValues(c, q).Some?)
            && args.GetAllValues(q) == (if UnparsedValues(c, q).Some? then UnparsedValues(c, q).value else [])
  {
    assert q in AllPrefixes;
  }

  /** The arguments a command with one locator is written out as pass the
      structural checks. */
  lemma UnparseStructurallyValid(c: EditCommand)
    requires HasOneLocator(c)
    ensures StructurallyValid(Unparse(c))
  {
    UnparseHolds(c, MemberMarker);
    UnparseHolds(c, IdPrefix);
    UnparseHolds(c, IndexPrefix);
    SizeCheckSubsumed(Unparse(c));
  }

  /** The field parsers read back every value the command holds, and no
      tag or transaction has the empty text the clearing sentinel uses. */
  ghost predicate ParsersReadBack(p: FieldParsers, c: EditCommand) {
    var d := c.descriptor;
    && (c.id.Some? ==> p.id(c.id.value.text) == c.id)
    && (c.index.Some? ==> p.index(IntText(c.index.value + 1)) == c.index)
    && (d.name.Some? ==> p.name(d.name.value.text) == d.name)
    && (d.phone.Some? ==> p.phone(d.phone.value.text) == d.phone)
    && (d.email.Some? ==> p.email(d.email.value.text) == d.email)
    && (d.address.Some? ==> p.address(d.address.value.text) == d.address)
    && (d.tags.Some? ==> forall t :: t in d.tags.value ==> t.text != "" && p.tag(t.text) == Some(t))
    && (d.transactions.Some? ==>
          forall t :: t in d.transactions.value ==> t.text != "" && p.transaction(t.text) == Some(t))
  }

  /** The name, phone, email and address a command is written out as parse
      back to the descriptor's. */
  lemma UnparsedScalarsReadBack(p: FieldParsers, c: EditCommand)
    requires ParsersReadBack(p, c)
    ensures var args := Unparse(c);
            var d := c.descriptor;
            && ParseOptional(args.GetValue(NamePrefix), p.name, NameField) == Success(d.name)
            && ParseOptional(args.GetValue(PhonePrefix), p.phone, PhoneField) == Success(d.phone)
            && ParseOptional(args.GetValue(EmailPrefix), p.email, EmailField) == Success(d.email)
            && ParseOptional(args.GetValue(AddressPrefix), p.address, AddressField) == Success(d.address)
  {
    UnparseHolds(c, NamePrefix);
    UnparseHolds(c, PhonePrefix);
    UnparseHolds(c, EmailPrefix);
    UnparseHolds(c, AddressPrefix);
  }

  /** The tags and transactions a command is written out as parse back to
      the descriptor's. */
  lemma UnparsedSetsReadBack(p: FieldParsers, c: EditCommand)
    requires ParsersReadBack(p, c)
    ensures var args := Unparse(c);
            var d := c.descriptor;
            && ParseTagsForEdit(p, args.GetAllValues(TagPrefix)) == Success(d.tags)
            && ParseTransactionsForEdit(p, args.GetAllValues(TransactionPrefix)) == Success(d.transactions)
  {
    var d := c.descriptor;
    UnparseHolds(c, TagPrefix);
    UnparseHolds(c, TransactionPrefix);
    if d.tags.Some? {
      SetReadBack(p.tag, TagText, d.tags.value, TagField);
    }
    if d.transactions.Some? {
      SetReadBack(p.transaction, TransactionText, d.transactions.value, TransactionField);
    }
  }

  /** The fields to edit a command is written out as parse back to its
      descriptor. */
  lemma UnparsedDescriptorReadBack(p: FieldParsers, c: EditCommand)
    requires c.descriptor.reservations.None?
    requires ParsersReadBack(p, c)
    ensures ParseDescriptor(p, Unparse(c)) == Success(c.descriptor)
  {
    UnparsedScalarsReadBack(p, c);
    UnparsedSetsReadBack(p, c);
  }

  /** Structurally valid arguments whose fields to edit parse to a
      descriptor that edits something, and whose one locator parses, give
      the command built from the two. */
  lemma ParseFromParts(p: FieldParsers, args: ArgumentMultimap, c: EditCommand)
    requires HasOneLocator(c) && c.descriptor.IsAnyFieldEdited()
    requires StructurallyValid(args)
    requires ParseDescriptor(p, args) == Success(c.descriptor)
    requires args.IsPresent(IdPrefix) <==> c.id.Some?
    requires c.id.Some? ==> p.id(args.GetValue(IdPrefix).value) == c.id
    requires c.index.Some? ==> p.index(args.GetValue(IndexPrefix).value) == c.index
    ensures Parse(p, args) == Success(c)
  {
    if c.id.Some? {
      assert c == EditById(c.id.value, c.descriptor);
    } else {
      assert c == EditByIndex(c.index.value, c.descriptor);
    }
  }

  /** Parsing the arguments a command is written out as gives the command
      back, for every command the parser can produce. */
  lemma ParseUnparse(p: FieldParsers, c: EditCommand)
    requires HasOneLocator(c)
    requires c.descriptor.IsAnyFieldEdited() && c.descriptor.reservations.None?
    requires ParsersReadBack(p, c)
    ensures Parse(p, Unparse(c)) == Success(c)
  {
    var args := Unparse(c);
    UnparseStructurallyValid(c);
    UnparseHolds(c, IdPrefix);
    UnparseHolds(c, IndexPrefix);
    UnparsedDescriptorReadBack(p, c);
    if c.id.Some? {
      assert args.GetValue(IdPrefix) == Some(c.id.value.text);
    } else {
      assert args.GetValue(IndexPrefix) == Some(IntText(c.index.value + 1));
    }
    ParseFromParts(p, args, c);
  }

  lemma SubsetSize<T>(a: set<T>, b: set<T>)
    requires a <= b
    ensures |a| <= |b|
  {
    assert b == a + (b - a);
  }
}
