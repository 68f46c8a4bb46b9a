/** The edit command: the descriptor of the fields to change, the two ways of
    naming the member to edit, the merge that builds the edited member, and
    the transition the command makes on the member list. */
module EditCommands {
  import opened Wrappers
  import opened Fields
  import opened Credits
  import opened Members

  /** The fields an edit supplies; an empty field keeps the target's value. */
  datatype EditDescriptor = EditDescriptor(
    name: Option<Name>,
    phone: Option<Phone>,
    email: Option<Email>,
    address: Option<Address>,
    tags: Option<set<Tag>>,
    transactions: Option<set<Transaction>>,
    reservations: Option<set<Reservation>>)
  {
    /** True when at least one field is supplied. */
    predicate IsAnyFieldEdited() {
      name.Some? || phone.Some? || email.Some? || address.Some?
      || tags.Some? || transactions.Some? || reservations.Some?
    }
  }

  const NoEdits := EditDescriptor(None, None, None, None, None, None, None)

  /** An edit command. As in the command object it models, it holds a
      zero-based index and an id, each of which may be absent; the two
      constructors below set exactly one of them. */
  datatype EditCommand = EditCommand(index: Option<nat>, id: Option<Id>, descriptor: EditDescriptor)

  predicate HasOneLocator(c: EditCommand) {
    c.index.Some? != c.id.Some?
  }

  /** The command that edits the member at a position of the list. */
  function EditByIndex(index: nat, descriptor: EditDescriptor): (c: EditCommand)
    ensures HasOneLocator(c)
    ensures c.index == Some(index) && c.descriptor == descriptor
  {
    EditCommand(Some(index), None, descriptor)
  }

  /** The command that edits the member with an id. */
  function EditById(id: Id, descriptor: EditDescriptor): (c: EditCommand)
    ensures HasOneLocator(c)
    ensures c.id == Some(id) && c.descriptor == descriptor
  {
    EditCommand(None, Some(id), descriptor)
  }

  /** The errors the command reports. */
  datatype CommandError =
    | InvalidMemberDisplayedIndex   // the index is past the end of the list
    | InvalidMemberDisplayedId      // no member has the id
    | DuplicateMember               // another member is the same member as the edited one

  const MessageEditMemberSuccess := "Edited Member: "

  /** The feedback of a successful edit: the success message followed by the
      string form of the edited member. */
  datatype CommandResult = CommandResult(message: string, member: seq<Section>)

  function EditSuccess(edited: Member): CommandResult {
    CommandResult(MessageEditMemberSuccess, Describe(edited))
  }

  /** The member list after the command, and what the command returned. */
  datatype Transition = Transition(members: seq<Member>, outcome: Result<CommandResult, CommandError>)

  /** The position of the first member with the given id, if any. */
  function FindById(members: seq<Member>, id: Id): (r: Option<nat>)
    ensures r.Some? ==> r.value < |members| && members[r.value].id == id
    ensures r.Some? ==> forall j :: 0 <= j < r.value ==> members[j].id != id
    ensures r.None? ==> forall j :: 0 <= j < |members| ==> members[j].id != id
    decreases |members|
  {
    if |members| == 0 then None
    else if members[0].id == id then Some(0)
    else
      match FindById(members[1..], id)
      case Some(k) => Some(k + 1)
      case None => None
  }

  /** The position of the member the command edits. An index past the end
      of the list is rejected first; then an id, when there is one, is looked
      up; a command with neither is reported as naming no member. */
  function ResolveTarget(c: EditCommand, members: seq<Member>): (r: Result<nat, CommandError>)
    ensures r.Success? ==> r.value < |members|
    ensures c.index.Some? && c.index.value >= |members| ==> r == Failure(InvalidMemberDisplayedIndex)
    ensures c.index.Some? && c.index.value < |members| && c.id.None? ==> r == Success(c.index.value)
    ensures c.id.Some? && (c.index.None? || c.index.value < |members|) ==>
              && (r.Failure? <==> forall j :: 0 <= j < |members| ==> members[j].id != c.id.value)
              && (r.Failure? ==> r.error == InvalidMemberDisplayedId)
    ensures c.id.Some? && r.Success? ==>
              members[r.value].id == c.id.value
              && forall j :: 0 <= j < r.value ==> members[j].id != c.id.value
    ensures r.Failure? ==> r.error != DuplicateMember
    ensures c.index.None? && c.id.None? ==> r == Failure(InvalidMemberDisplayedId)
  {
    if c.index.Some? && c.index.value >= |members| then Failure(InvalidMemberDisplayedIndex)
    else if c.id.Some? then
      match FindById(members, c.id.value)
      case Some(k) => Success(k)
      case None => Failure(InvalidMemberDisplayedId)
    else if c.index.Some? then Success(c.index.value)
    else Failure(InvalidMemberDisplayedId)
  }

  /** The target with the descriptor's fields laid over it. The id and the
      registration timestamp are always the target's, and the credit is
      recomputed from the resulting transactions. */
  ghost function EditedMember(target: Member, d: EditDescriptor): (r: Member)
    ensures r.id == target.id && r.timestamp == target.timestamp
    ensures d.name.Some? ==> r.name == d.name.value
    ensures d.name.None? ==> r.name == target.name
    ensures d.phone.Some? ==> r.phone == d.phone.value
    ensures d.phone.None? ==> r.phone == target.phone
    ensures d.email.Some? ==> r.email == d.email.value
    ensures d.email.None? ==> r.email == target.email
    ensures d.address.Some? ==> r.address == d.address.value
    ensures d.address.None? ==> r.address == target.address
    ensures d.tags.Some? ==> r.tags == d.tags.value
    ensures d.tags.None? ==> r.tags == target.tags
    ensures d.transactions.Some? ==> r.transactions == d.transactions.value
    ensures d.transactions.None? ==> r.transactions == target.transactions
    ensures d.reservations.Some? ==> r.reservations == d.reservations.value
    ensures d.reservations.None? ==> r.reservations == target.reservations
    ensures r.credit.value <= CreditMax
    ensures r.credit.value == SumAmounts(r.transactions) || r.credit.value == CreditMax
    ensures r.credit.value <= SumAmounts(r.transactions)
  {
    var transactions := d.transactions.GetOr(target.transactions);
    Member(
      target.id,
      d.name.GetOr(target.name),
      d.phone.GetOr(target.phone),
      d.email.GetOr(target.email),
      d.address.GetOr(target.address),
      target.timestamp,
      CappedCredit(SumAmounts(transactions)),
      d.tags.GetOr(target.tags),
      transactions,
      d.reservations.GetOr(target.reservations))
  }

  /** True when a member other than the one at `target` is the same member
      as `candidate`. */
  predicate HasOtherSameMember(members: seq<Member>, target: nat, candidate: Member) {
    exists j :: 0 <= j < |members| && j != target && IsSameMember(members[j], candidate)
  }

  /** Runs the command on the member list: resolve the target, build the
      edited member, reject it if another member is the same member, and
      otherwise put it in the target's place. */
  ghost function Execute(c: EditCommand, members: seq<Member>): (t: Transition)
    ensures t.outcome.Failure? ==> t.members == members
    ensures |t.members| == |members|
    ensures t.outcome.Success? ==>
              && ResolveTarget(c, members).Success?
              && var k := ResolveTarget(c, members).value;
                 && t.members == members[k := EditedMember(members[k], c.descriptor)]
                 && t.outcome.value == EditSuccess(t.members[k])
                 && forall j :: 0 <= j < |members| && j != k ==> !IsSameMember(members[j], t.members[k])
    ensures t.outcome == Failure(DuplicateMember) ==>
              && ResolveTarget(c, members).Success?
              && HasOtherSameMember(members, ResolveTarget(c, members).value,
                                    EditedMember(members[ResolveTarget(c, members).value], c.descriptor))
  {
    match ResolveTarget(c, members)
    case Failure(e) => Transition(members, Failure(e))
    case Success(k) =>
      var edited := EditedMember(members[k], c.descriptor);
      if HasOtherSameMember(members, k, edited) then Transition(members, Failure(DuplicateMember))
      else Transition(members[k := edited], Success(EditSuccess(edited)))
  }

  /** An index past the end of the list is rejected, and the list is kept. */
  lemma EditByIndexOutOfRange(c: EditCommand, members: seq<Member>)
    requires c.index.Some? && c.index.value >= |members|
    ensures Execute(c, members) == Transition(members, Failure(InvalidMemberDisplayedIndex))
  {
  }

  /** An id no member has is rejected, and the list is kept. */
  lemma EditByIdNotFound(c: EditCommand, members: seq<Member>)
    requires c.index.None? && c.id.Some?
    requires forall j :: 0 <= j < |members| ==> members[j].id != c.id.value
    ensures Execute(c, members) == Transition(members, Failure(InvalidMemberDisplayedId))
  {
  }

  /** An edit that would make the target the same member as another one is
      rejected before the list changes. */
  lemma EditRejectsDuplicate(c: EditCommand, members: seq<Member>, k: nat, j: nat)
    requires ResolveTarget(c, members) == Success(k)
    requires j < |members| && j != k
    requires IsSameMember(members[j], EditedMember(members[k], c.descriptor))
    ensures Execute(c, members) == Transition(members, Failure(DuplicateMember))
  {
  }

  /** A successful edit replaces exactly the target's slot. */
  lemma EditReplacesTargetSlot(c: EditCommand, members: seq<Member>, k: nat)
    requires ResolveTarget(c, members) == Success(k)
    requires !HasOtherSameMember(members, k, EditedMember(members[k], c.descriptor))
    ensures var t := Execute(c, members);
            && t.outcome == Success(EditSuccess(EditedMember(members[k], c.descriptor)))
            && |t.members| == |members|
            && t.members[k] == EditedMember(members[k], c.descriptor)
            && forall i :: 0 <= i < |members| && i != k ==> t.members[i] == members[i]
  {
  }

  /** No two members of the list are the same member. */
  predicate UniqueMembers(members: seq<Member>) {
    forall i, j :: 0 <= i < |members| && 0 <= j < |members| && i != j ==> !IsSameMember(members[i], members[j])
  }

  /** The command keeps the list free of duplicate members. */
  lemma EditPreservesUniqueMembers(c: EditCommand, members: seq<Member>)
    requires UniqueMembers(members)
    ensures UniqueMembers(Execute(c, members).members)
  {
    var t := Execute(c, members);
    if t.outcome.Success? {
      var k := ResolveTarget(c, members).value;
      forall i, j | 0 <= i < |t.members| && 0 <= j < |t.members| && i != j
        ensures !IsSameMember(t.members[i], t.members[j])
      {
        if i == k {
          SameMemberSymmetric(t.members[i], t.members[j]);
        } else if j != k {
          assert t.members[i] == members[i] && t.members[j] == members[j];
        }
      }
    }
  }

  /** The edited member's credit is what its transactions are worth, and an
      edit that supplies nothing changes nothing else. */
  lemma EditedMemberCreditConsistent(target: Member, d: EditDescriptor)
    ensures CreditConsistent(EditedMember(target, d))
    ensures CreditConsistent(target) ==> EditedMember(target, NoEdits) == target
  {
  }

  /** Applying the same descriptor twice gives what applying it once gives. */
  lemma EditedMemberIdempotent(target: Member, d: EditDescriptor)
    ensures EditedMember(EditedMember(target, d), d) == EditedMember(target, d)
  {
  }

  /** Runs the command with loops: the credit is summed by walking the
      transaction set, and the list is scanned for a duplicate. */
  method ExecuteEdit(c: EditCommand, members: seq<Member>) returns (t: Transition)
    ensures t == Execute(c, members)
  {
    var target := ResolveTarget(c, members);
    if target.Failure? {
      return Transition(members, Failure(target.error));
    }
    var k := target.value;
    var m := members[k];
    var d := c.descriptor;
    var transactions := d.transactions.GetOr(m.transactions);
    var total := TotalAmount(transactions);
    var edited := Member(
      m.id,
      d.name.GetOr(m.name),
      d.phone.GetOr(m.phone),
      d.email.GetOr(m.email),
      d.address.GetOr(m.address),
      m.timestamp,
      CappedCredit(total),
      d.tags.GetOr(m.tags),
      transactions,
      d.reservations.GetOr(m.reservations));
    assert edited == EditedMember(m, d);
    var j := 0;
    while j < |members|
      invariant j <= |members|
      invariant forall i :: 0 <= i < j && i != k ==> !IsSameMember(members[i], edited)
    {
      if j != k && IsSameMember(members[j], edited) {
        return Transition(members, Failure(DuplicateMember));
      }
      j := j + 1;
    }
    t := Transition(members[k := edited], Success(EditSuccess(edited)));
  }
}
