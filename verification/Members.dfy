/** A member of the loyalty programme: ten fields, two notions of equality,
    the two append operations and the sections of its string form. */
module Members {
  import opened Fields
  import opened Credits

  /** A member record. A Dafny datatype value is immutable, so the tag,
      transaction and reservation sets a member is built from are its own
      copies, and the getters are the field selectors. */
  datatype Member = Member(
    id: Id,
    name: Name,
    phone: Phone,
    email: Email,
    address: Address,
    timestamp: Timestamp,
    credit: Credit,
    tags: set<Tag>,
    transactions: set<Transaction>,
    reservations: set<Reservation>)

  /** Building a member keeps every value it is given: each getter returns
      exactly the argument passed for it. */
  lemma ConstructionKeepsFields(
    id: Id, name: Name, phone: Phone, email: Email, address: Address,
    timestamp: Timestamp, credit: Credit, tags: set<Tag>,
    transactions: set<Transaction>, reservations: set<Reservation>)
    ensures var m := Member(id, name, phone, email, address, timestamp, credit,
                            tags, transactions, reservations);
            && m.id == id && m.name == name && m.phone == phone && m.email == email
            && m.address == address && m.timestamp == timestamp && m.credit == credit
            && m.tags == tags && m.transactions == transactions
            && m.reservations == reservations
  {
  }

  // Weak identity: the comparisons used to detect duplicate members.

  // Each comparison first accepts the member itself, then compares values.

  predicate IsSameId(a: Member, b: Member) {
    a == b || b.id == a.id
  }

  predicate IsSamePhone(a: Member, b: Member) {
    a == b || b.phone == a.phone
  }

  predicate IsSameEmail(a: Member, b: Member) {
    a == b || b.email == a.email
  }

  /** Two members are the same member when they are the same member value,
      or share the id, the email or the phone. */
  predicate IsSameMember(a: Member, b: Member) {
    a == b || IsSameId(a, b) || IsSameEmail(a, b) || IsSamePhone(a, b)
  }

  /** The short-circuit on the member itself adds nothing: weak identity is
      sharing the id, the email or the phone, and so is each comparison. */
  lemma IsSameMemberIff(a: Member, b: Member)
    ensures IsSameMember(a, b) <==> a.id == b.id || a.email == b.email || a.phone == b.phone
    ensures IsSameId(a, b) <==> a.id == b.id
    ensures IsSameEmail(a, b) <==> a.email == b.email
    ensures IsSamePhone(a, b) <==> a.phone == b.phone
  {
  }

  /** Every member is the same member as itself, under each of the four
      comparisons. */
  lemma SameMemberReflexive(m: Member)
    ensures IsSameId(m, m) && IsSamePhone(m, m) && IsSameEmail(m, m)
    ensures IsSameMember(m, m)
  {
  }

  lemma SameMemberSymmetric(a: Member, b: Member)
    ensures IsSameMember(a, b) <==> IsSameMember(b, a)
  {
  }

  // Strong equality: all ten fields.

  predicate Equals(a: Member, b: Member) {
    && b.id == a.id
    && b.name == a.name
    && b.phone == a.phone
    && b.email == a.email
    && b.address == a.address
    && b.timestamp == a.timestamp
    && b.credit == a.credit
    && b.tags == a.tags
    && b.transactions == a.transactions
    && b.reservations == a.reservations
  }

  /** Strong equality is equality of member values, and it implies weak
      identity. */
  lemma EqualsIsValueEquality(a: Member, b: Member)
    ensures Equals(a, b) <==> a == b
    ensures Equals(a, b) ==> IsSameMember(a, b)
  {
  }

  // The two append operations.

  /** Unions new transactions into the member's transaction set. */
  function AddTransactions(m: Member, newTransactions: set<Transaction>): (r: Member)
    ensures r.transactions == m.transactions + newTransactions
    ensures r.(transactions := m.transactions) == m
  {
    m.(transactions := m.transactions + newTransactions)
  }

  /** Unions new reservations into the member's reservation set. */
  function AddReservations(m: Member, newReservations: set<Reservation>): (r: Member)
    ensures r.reservations == m.reservations + newReservations
    ensures r.(reservations := m.reservations) == m
  {
    m.(reservations := m.reservations + newReservations)
  }

  /** Appending is a set union: doing it twice changes nothing more. */
  lemma AddTransactionsIdempotent(m: Member, s: set<Transaction>)
    ensures AddTransactions(AddTransactions(m, s), s) == AddTransactions(m, s)
    ensures s <= m.transactions ==> AddTransactions(m, s) == m
  {
  }

  lemma AddReservationsIdempotent(m: Member, s: set<Reservation>)
    ensures AddReservations(AddReservations(m, s), s) == AddReservations(m, s)
    ensures s <= m.reservations ==> AddReservations(m, s) == m
  {
  }

  /** The credit is what the transactions are worth. An edit establishes
      this; the append operations do not re-establish it. */
  ghost predicate CreditConsistent(m: Member) {
    m.credit == CappedCredit(SumAmounts(m.transactions))
  }

  lemma AddReservationsKeepsCreditConsistent(m: Member, s: set<Reservation>)
    requires CreditConsistent(m)
    ensures CreditConsistent(AddReservations(m, s))
  {
  }

  /** Appending a new transaction with a non-zero amount to a member whose
      credit is below the cap leaves the credit stale: the credit is not
      recomputed. */
  lemma AddTransactionsLeavesCreditStale(m: Member, t: Transaction)
    requires CreditConsistent(m)
    requires t !in m.transactions && t.amount != 0
    requires SumAmounts(m.transactions) < CreditMax
    requires SumAmounts(m.transactions) + t.amount < CreditMax
    ensures AddTransactions(m, {t}).credit == m.credit
    ensures !CreditConsistent(AddTransactions(m, {t}))
  {
    SumAmountsInsert(m.transactions, t);
  }

  // The string form.

  /** One section of a member's string form: a labelled value, or a labelled
      set of values. The values of a set section are kept as a set because
      they are written out in the set's iteration order, which is
      unspecified. */
  datatype Section =
    | Field(title: string, text: string)
    | Items(title: string, items: set<string>)

  predicate HasSection(sections: seq<Section>, title: string) {
    exists i :: 0 <= i < |sections| && sections[i].title == title
  }

  function Digit(d: nat): char
    requires d < 10
  {
    "0123456789"[d]
  }

  function NaturalText(n: nat): string
    decreases n
  {
    if n < 10 then [Digit(n)] else NaturalText(n / 10) + [Digit(n % 10)]
  }

  /** The decimal form of an integer. */
  function IntText(i: int): string {
    if i < 0 then "-" + NaturalText(-i) else NaturalText(i)
  }

  function TagText(t: Tag): string {
    t.text
  }

  function TransactionText(t: Transaction): string {
    t.text
  }

  function ReservationText(r: Reservation): string {
    r.text
  }

  /** The texts of the members of a set. */
  function SetTexts<T>(s: set<T>, text: T -> string): (r: set<string>)
    ensures r == {} <==> s == {}
    ensures forall x :: x in s ==> text(x) in r
  {
    var r := set x | x in s :: text(x);
    assert s != {} ==> r != {} by {
      if s != {} {
        var x :| x in s;
        assert text(x) in r;
      }
    }
    r
  }

  /** The section for a set of values: present only when the set is not
      empty. */
  function SetSection(title: string, items: set<string>): (r: seq<Section>)
    ensures HasSection(r, title) <==> items != {}
    ensures forall i :: 0 <= i < |r| ==> r[i] == Items(title, items) && items != {}
  {
    if items == {} then []
    else
      var r := [Items(title, items)];
      assert r[0].title == title;
      r
  }

  lemma HasSectionAppend(a: seq<Section>, b: seq<Section>, title: string)
    ensures HasSection(a + b, title) <==> HasSection(a, title) || HasSection(b, title)
  {
    if HasSection(a + b, title) {
      var i :| 0 <= i < |a + b| && (a + b)[i].title == title;
      if i >= |a| {
        assert b[i - |a|].title == title;
      }
    }
    if HasSection(a, title) {
      var i :| 0 <= i < |a| && a[i].title == title;
      assert (a + b)[i].title == title;
    }
    if HasSection(b, title) {
      var i :| 0 <= i < |b| && b[i].title == title;
      assert (a + b)[|a| + i].title == title;
    }
  }

  /** The seven sections every member's string form starts with. */
  function ScalarSections(m: Member): (r: seq<Section>)
    ensures |r| == 7
    ensures forall i :: 0 <= i < 7 ==> r[i].Field?
  {
    [ Field("Id", m.id.text),
      Field("Name", m.name.text),
      Field("Phone", m.phone.text),
      Field("Email", m.email.text),
      Field("Address", m.address.text),
      Field("Registration Timestamp", m.timestamp.text),
      Field("Credit", IntText(m.credit.value)) ]
  }

  /** The sections of a member's string form, in order: the seven scalar
      fields, then one section per non-empty set. */
  function Describe(m: Member): seq<Section> {
    ScalarSections(m)
    + SetSection("Tags", SetTexts(m.tags, TagText))
    + SetSection("Transactions", SetTexts(m.transactions, TransactionText))
    + SetSection("Reservations", SetTexts(m.reservations, ReservationText))
  }

  lemma ScalarSectionTitles(m: Member, title: string)
    requires title in {"Tags", "Transactions", "Reservations"}
    ensures !HasSection(ScalarSections(m), title)
  {
    var r := ScalarSections(m);
    forall i | 0 <= i < 7
      ensures r[i].title != title
    {
      assert r[i].title in {"Id", "Name", "Phone", "Email", "Address", "Registration Timestamp", "Credit"};
    }
  }

  /** The string form starts with the seven scalar fields; it has a Tags,
      Transactions or Reservations section exactly when that set is not
      empty, and then the section lists the set's values. */
  lemma DescribeSections(m: Member)
    ensures var r := Describe(m);
            && |r| >= 7 && r[..7] == ScalarSections(m)
            && (HasSection(r, "Tags") <==> m.tags != {})
            && (HasSection(r, "Transactions") <==> m.transactions != {})
            && (HasSection(r, "Reservations") <==> m.reservations != {})
            && (forall i :: 0 <= i < |r| && r[i].title == "Tags" ==> r[i] == Items("Tags", SetTexts(m.tags, TagText)))
  {
    var head := ScalarSections(m);
    var tags := SetSection("Tags", SetTexts(m.tags, TagText));
    var transactions := SetSection("Transactions", SetTexts(m.transactions, TransactionText));
    var reservations := SetSection("Reservations", SetTexts(m.reservations, ReservationText));
    var r := Describe(m);
    assert r == head + tags + transactions + reservations;
    ScalarSectionTitles(m, "Tags");
    ScalarSectionTitles(m, "Transactions");
    ScalarSectionTitles(m, "Reservations");
    HasSectionAppend(head, tags, "Tags");
    HasSectionAppend(head + tags, transactions, "Tags");
    HasSectionAppend(head + tags + transactions, reservations, "Tags");
    HasSectionAppend(head, tags, "Transactions");
    HasSectionAppend(head + tags, transactions, "Transactions");
    HasSectionAppend(head + tags + transactions, reservations, "Transactions");
    HasSectionAppend(head, tags, "Reservations");
    HasSectionAppend(head + tags, transactions, "Reservations");
    HasSectionAppend(head + tags + transactions, reservations, "Reservations");
    assert r[..7] == head;
    forall i | 0 <= i < |r| && r[i].title == "Tags"
      ensures r[i] == Items("Tags", SetTexts(m.tags, TagText))
    {
      if 7 <= i < 7 + |tags| {
        assert r[i] == tags[i - 7];
      } else {
        assert false;
      }
    }
  }
}
