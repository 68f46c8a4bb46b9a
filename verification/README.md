# Edit-member pipeline of the ezFoodie membership tool

This project is a Dafny model of how ezFoodie edits a member. ezFoodie is a
command-driven tool that keeps members of a loyalty programme, with their
contact details, tags, transactions and reservations. The model covers
three pieces:

- **`Member`** (`Members.dfy`). A ten-field record, modelled as an
  immutable value (the source's object is mutable; see "Left out"). It has a
  weak notion of identity, "same member" (same id, email or phone), and a
  strong one, equality of all ten fields. It has the two append operations
  that union new transactions or reservations into a member. It has the
  sections of the member's string form.
- **Edit-command parsing** (`EditCommandParser.dfy`). This is the path
  from tokenized arguments to an `EditCommand`, in this order:
  1. the structural checks: the tokenized arguments have at least three
     entries, the member marker is given, exactly one of index and id is
     given, and there is no preamble;
  2. the descriptor of optional fields, including the `""` sentinel that
     clears the tag or transaction set;
  3. the "nothing to edit" rejection;
  4. the choice between editing by id and editing by index.
- **Edit-command execution** (`EditCommands.dfy`). A transition on the
  member list (`seq<Member>`), in this order:
  1. resolve the target by index or by id, each with its own error;
  2. lay the descriptor over the target, always keeping the id and the
     registration timestamp;
  3. recompute the credit as `min(sum of amounts, Credit.MAX)`;
  4. reject an edited member that is the same member as another one,
     before the list changes;
  5. replace the target's slot.

`Credits.dfy` holds the transaction sum and the credit cap.
`Fields.dfy` holds the validated value types.
`Wrappers.dfy` holds `Option` and `Result`.
Every thrown exception becomes a `Failure` with one error variant per
message constant. A failed command leaves the list as it was.

Modelling choices:

- **Value types.** `Id`, `Name`, `Phone`, `Email`, `Address`, `Tag`,
  `Transaction` and `Reservation` wrap their text and compare by value.
- **Format rules.** The field format rules are not part of this model.
  The field parsers are a `FieldParsers` record of partial functions
  (`string -> Option<T>`), and every property about parsing holds for all
  such parsers.
- **Transaction amounts.** A transaction carries the whole-number
  `amount` its value truncates to.
- **`Credit.MAX`.** It is the constant `Fields.CreditMax`. Its value is
  left unspecified, so every proof holds whatever the cap is.
- **The `Model` interface.** The `Model` class is not part of this model.
  - `getUpdatedMemberList` is the `seq<Member>` itself.
  - `setMember(target, edited)` replaces the target's slot.
  - `hasMember(candidate, p)` is assumed to mean that some member `m`
    of the list satisfies `p(m)` and is the same member as `candidate`.
- **Tokenizer output.** The output of `ArgumentTokenizer` is an
  `ArgumentMultimap` value: a preamble, and a map from prefix to the
  values given for it.
  - `getValue` is taken to return the last value given.
  - `getSize` is taken to count the entries of the tokenizer's map: the
    preamble, which the tokenizer always stores under the empty prefix,
    plus one entry per prefix given. The member marker and one locator
    therefore already make three entries, so the size check never rejects
    arguments the other checks accept (`SizeCheckSubsumed`), and an edit
    with a locator and no field reaches the "nothing to edit" rejection
    (`IndexOnlyEditNotEdited`).
  - These classes are not part of this model.
- **Ghost spec and loop implementation.** The transaction sum walks a
  set, so it is a ghost function. The edited member and `Execute` are
  therefore ghost functions too. `EditCommands.ExecuteEdit` does the same
  work with loops and is proved equal to `Execute`.

Two places where the program's own texts disagree with its code; the
model follows the code:

- **Reservations.** The edit usage text lists a `RESERVATION` parameter
  (`EditCommand.java` lines 54 and 62), but the parser's tokenize call
  (`EditCommandParser.java` lines 43-44) does not include the reservation
  prefix. A parsed edit never sets reservations.
- **Excluding the target from the duplicate check.** The duplicate filter
  is `member.getId() != editedMember.getId()` (`EditCommand.java` line
  124), a comparison of `Id` object references. The edited member carries
  the target's own `Id` object (line 142), so the filter leaves out the
  target, and any other member sharing that very object. The model
  excludes the target's position.

## Model

| member | source | states |
|---|---|---|
| Members.ConstructionKeepsFields | src/main/java/seedu/address/model/member/Member.java:37-51 | after construction each getter returns exactly the value passed in; the sets are the member's own values |
| Members.IsSameMemberIff | src/main/java/seedu/address/model/member/Member.java:121-128 | two members are the same member iff they share the id, the email or the phone, and each of `isSameId`, `isSameEmail`, `isSamePhone` holds iff that field is shared: the short-circuit on the member itself adds nothing |
| Members.SameMemberReflexive | src/main/java/seedu/address/model/member/Member.java:121-167 | `isSameId`, `isSamePhone`, `isSameEmail` and `isSameMember` each hold of a member and itself |
| Members.SameMemberSymmetric | src/main/java/seedu/address/model/member/Member.java:121-128 | weak identity does not depend on the order of the two members |
| Members.EqualsIsValueEquality | src/main/java/seedu/address/model/member/Member.java:174-194 | strong equality (all ten fields pairwise equal) holds iff the members are equal, and it implies weak identity |
| Members.AddTransactions | src/main/java/seedu/address/model/member/Member.java:105-107 | the transaction set becomes the old set united with the new one; every other field, the credit included, is unchanged |
| Members.AddReservations | src/main/java/seedu/address/model/member/Member.java:113-115 | the reservation set becomes the old set united with the new one; every other field is unchanged |
| Members.AddTransactionsIdempotent | src/main/java/seedu/address/model/member/Member.java:105-107 | appending the same transactions twice is appending them once, and appending transactions already held changes nothing |
| Members.AddReservationsIdempotent | src/main/java/seedu/address/model/member/Member.java:113-115 | appending the same reservations twice is appending them once, and appending reservations already held changes nothing |
| Members.AddReservationsKeepsCreditConsistent | src/main/java/seedu/address/model/member/Member.java:113-115 | appending reservations keeps a credit that matches the transactions matching |
| Members.AddTransactionsLeavesCreditStale | src/main/java/seedu/address/model/member/Member.java:105-107 | appending a new non-zero transaction below the cap keeps the old credit, which then no longer matches the transactions |
| Members.DescribeSections | src/main/java/seedu/address/model/member/Member.java:203-239 | the string form starts with the seven scalar fields, and has a Tags, Transactions or Reservations section iff that set is non-empty, the Tags section listing exactly the tags |
| Credits.SumAmountsRemove | src/main/java/seedu/address/logic/commands/EditCommand.java:153-154 | the sum of amounts is the same whichever transaction is taken out first, so it does not depend on the set's iteration order |
| Credits.CappedCredit | src/main/java/seedu/address/logic/commands/EditCommand.java:153-154 | the credit is the sum when the sum is at most `Credit.MAX`, and `Credit.MAX` otherwise: never above the cap nor above the sum |
| Credits.TotalAmount | src/main/java/seedu/address/logic/commands/EditCommand.java:151-154 | walking the transaction set and adding the amounts gives the sum of the amounts |
| EditCommands.EditByIndex | src/main/java/seedu/address/logic/commands/EditCommand.java:83-90 | a command built from an index holds that index, no id, and the descriptor |
| EditCommands.EditById | src/main/java/seedu/address/logic/commands/EditCommand.java:96-103 | a command built from an id holds that id, no index, and the descriptor |
| EditCommands.FindById | src/main/java/seedu/address/logic/commands/EditCommand.java:118-121 | the position found holds a member with the id and no earlier member has it; no position is found iff no member has the id |
| EditCommands.ResolveTarget | src/main/java/seedu/address/logic/commands/EditCommand.java:110-131 | an index at or past the list length gives the invalid-index error; an in-range index names its position; an id names the first member with it, or gives the invalid-id error iff no member has it |
| EditCommands.EditedMember | src/main/java/seedu/address/logic/commands/EditCommand.java:139-160 | each of name, phone, email, address, tags, transactions and reservations comes from the descriptor when present and from the target otherwise; id and timestamp are the target's; credit is at most `Credit.MAX` and is the capped sum of the resulting transactions |
| EditCommands.EditedMemberCreditConsistent | src/main/java/seedu/address/logic/commands/EditCommand.java:149-154 | the edited member's credit matches its transactions, and an empty descriptor leaves a consistent member as it was |
| EditCommands.EditedMemberIdempotent | src/main/java/seedu/address/logic/commands/EditCommand.java:142-159 | applying a descriptor to its own result changes nothing |
| EditCommands.Execute | src/main/java/seedu/address/logic/commands/EditCommand.java:105-133 | a failure leaves the list unchanged; the length never changes; success means the target resolved, only its slot now holds the edited member, no other member is the same member as it, and the message is "Edited Member: " with its string form; a duplicate failure means some other member is the same member as the edited one |
| EditCommands.EditByIndexOutOfRange | src/main/java/seedu/address/logic/commands/EditCommand.java:111-116 | an index at or past the list length fails with the invalid-index error and leaves the list unchanged |
| EditCommands.EditByIdNotFound | src/main/java/seedu/address/logic/commands/EditCommand.java:118-132 | an id that no member has fails with the invalid-id error and leaves the list unchanged |
| EditCommands.EditRejectsDuplicate | src/main/java/seedu/address/logic/commands/EditCommand.java:122-126 | if another member is the same member as the edited one, the command fails with the duplicate-member error and the list is unchanged |
| EditCommands.EditReplacesTargetSlot | src/main/java/seedu/address/logic/commands/EditCommand.java:127-129 | with no duplicate, the command succeeds, the target's slot holds the edited member, and every other position and the length are unchanged |
| EditCommands.EditPreservesUniqueMembers | src/main/java/seedu/address/logic/commands/EditCommand.java:122-129 | if no two members of the list are the same member before the command, none are after it |
| EditCommands.ExecuteEdit | src/main/java/seedu/address/logic/commands/EditCommand.java:105-160 | the loop implementation (sum over the transaction set, scan for a duplicate) gives the same list and result as the model |
| EditCommandParser.ParseTagsForEdit | src/main/java/seedu/address/logic/parser/EditCommandParser.java:93-101 | no tag values leave the tags unedited; the single value "" gives an empty tag set; otherwise the result succeeds iff every value parses, and is the set of parsed tags |
| EditCommandParser.ParseTransactionsForEdit | src/main/java/seedu/address/logic/parser/EditCommandParser.java:109-119 | the same three-way rule for transaction values |
| EditCommandParser.ParseContacts | src/main/java/seedu/address/logic/parser/EditCommandParser.java:55-66 | succeeds iff each given name, phone, email and address parses, holding exactly the parsed values; otherwise fails with the error of the first of the four, in that order, whose value does not parse |
| EditCommandParser.ParseSets | src/main/java/seedu/address/logic/parser/EditCommandParser.java:67-69 | succeeds iff the tag values and the transaction values both parse (or clear their set), holding the two parsed sets; otherwise fails with the tag error, or with the transaction error only when the tags parse |
| EditCommandParser.ParseDescriptor | src/main/java/seedu/address/logic/parser/EditCommandParser.java:54-69 | succeeds iff every value given for a field to edit parses, and then edits something iff some field was given; otherwise fails with the error of the first field, in source order, whose value does not parse |
| EditCommandParser.Parse | src/main/java/seedu/address/logic/parser/EditCommandParser.java:41-86 | structurally invalid arguments give the usage-format error; valid ones with no field give the not-edited error; valid ones with a field fail only with the constraint error of the first field whose value does not parse, in the order name, phone, email, address, tags, transactions, locator; parsing succeeds iff the arguments are valid, give a field, and every given value and the locator parse; on success the command has exactly one locator, the id one iff an id was given, holding the parsed locator; each descriptor field is present iff its prefix was given and holds the parsed value; reservations are never set |
| EditCommandParser.StructureCheckedFirst | src/main/java/seedu/address/logic/parser/EditCommandParser.java:46-55 | the structural checks decide before any value is parsed: failing arguments give the usage-format error whatever the field parsers are |
| EditCommandParser.SizeCheckSubsumed | src/main/java/seedu/address/logic/parser/EditCommandParser.java:46-52 | with the preamble entry counted, the arguments pass the structural checks iff the member marker is given, exactly one locator is given and the preamble is empty: the size check never decides alone |
| EditCommandParser.IndexOnlyEditNotEdited | src/main/java/seedu/address/logic/parser/EditCommandParser.java:46-73 | arguments with the member marker and an index and nothing else pass the structural checks, give no field, and are rejected with the not-edited error |
| EditCommandParser.NothingToEditIgnoresLocator | src/main/java/seedu/address/logic/parser/EditCommandParser.java:71-73 | structurally valid arguments that give no name, phone, email, address, tag or transaction fail with the not-edited error, before the locator is parsed |
| EditCommandParser.ParseUnparse | src/main/java/seedu/address/logic/parser/EditCommandParser.java:41-119 | a command with one locator and some edited field, written out as arguments, parses back to itself, given parsers that read back its values |

## Left out

- `ArgumentTokenizer`, `ArgumentMultimap` and `ParserUtil` are not part of this model. Tokenizing is an input value; the field parsers are parameters with no format rule. `Size` assumes the tokenizer always stores the preamble as an entry of its map.
- The field regexes and the constraint messages are not part of this model. A failed field parse is `Constraint(field)`.
- `EditMemberDescriptor` is not part of this model. `isAnyFieldEdited` is assumed to test all seven fields. Because a parsed descriptor never holds reservations, testing only six gives the same parser.
- `Credit`, `Timestamp` and `Index` are not part of this model. `Credit.MAX` is unspecified. Any validation the `Credit` constructor does on the recomputed text (a negative sum, say) is not modelled. An index is its zero-based position.
- `Transaction.getDoubleValue` and the `(int)` cast are floating point. A transaction carries its truncated whole-number amount instead.
- Members.AddTransactions, Members.AddReservations: the source's `addTransactions` and `addReservations` are `void` methods that `addAll` into the member's own `HashSet`, so the change is seen through every reference to that object: the list entry, and any unmodifiable view already returned by `getTransactions()` or `getReservations()`. The model returns a new member value instead; aliasing and in-place update of a shared object are not modelled.
- The message texts of the errors are not modelled. Each message is an error variant: `NotEdited` for `MESSAGE_NOT_EDITED`, `DuplicateMember` for `MESSAGE_DUPLICATE_MEMBER`, and so on. Only the success message's prefix is kept, as part of the command's result.
- Credits.TotalAmount, EditCommands.EditedMember: do not model 32-bit `int` wrap-around of the credit sum. Unbounded integers are used. The source itself flags this overflow as unchecked.
- EditCommands.Execute: the duplicate check excludes the target's position, not members whose `Id` is the same object as the target's (`!=` on references). Java object identity is not modelled.
- EditCommands.FindById: `findAny` on the member stream is taken to return the first match.
- EditCommands.Execute: `setMember` replaces the resolved slot. The `Model` implementation is not part of this model.
- `updateFilteredMemberList` is not modelled. It resets a UI filter and does not change the member list.
- `MESSAGE_USAGE`, `hashCode` and `EditCommand.equals` are not modelled. They are message text and hashing, not edit behaviour.
- The exact text of `toString` is not modelled. A set section keeps its values as a set, because `HashSet` iteration order is unspecified. Each value is written as its own text.
- The `requireNonNull` checks are not modelled. Dafny values cannot be null.
- The JSON storage adapter and its test are persistence mapping, outside the edit pipeline.
- `DeleteCommandParser` is an abstract class with no behaviour.
