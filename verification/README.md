# The DNSSEC validator's names, messages, denial proofs and query scheduling

A Dafny model of the hard core of the validator libraries `libsres` and `libval`: how domain
names are compared, compressed, expanded and printed; how messages are parsed and queries built;
how NSEC and NSEC3 records are turned into proofs that a name does not exist; how the validator
walks down from a trust anchor; and how queries to several servers are retried, moved and given up.

All specifications are over names as sequences of labels (`Names.dfy`). Code that works on octets
in buffers is modelled on octets in buffers, and what it computes is stated over label sequences.
A valid name has labels of 1 to 63 octets and takes at most 255 octets on the wire.

| file | what it models |
|---|---|
| `Names.dfy`, `NameLength.dfy` | label sequences, their wire form, case, ancestors; `wire_name_length` |
| `CanonOrder.dfy` | `namecmp` and its parts; `namename` |
| `WireName.dfy`, `Compress.dfy` | decompression and skipping; compression against a table of pointers |
| `MsgParser.dfy` | the message handle and its cursor |
| `Text.dfy`, `SubDomain.dfy` | names as text, and the subdomain test on text |
| `TypeBitmap.dfy`, `Denial.dfy` | `is_type_set` on the octets of a type bitmap; what the two provers share |
| `Nsec.dfy`, `Nsec3.dfy` | the two denial-of-existence provers, against a whole zone with its types |
| `Policy.dfy`, `Walk.dfy` | trust-anchor and zone-security lookups; the provably-insecure walk |
| `QueryIo.dfy` | the query I/O manager as a class, and as a machine of elementary events |
| `Base64.dfy`, `Builder.dfy` | base64; query, OPT and TSIG records, put to the parser |
| `Message.dfy` | messages of any records, written out and fetched back; the built queries as such messages |

Sockets, reads, clocks, random numbers, allocation, the NSEC3 hash, the HMAC and the results of
the NS and DS queries are parameters or arbitrary choices. A region under a lock is one step.

Six places where the code does not do what its documentation or the standard promises are kept
as they are; each has an input that shows it, and the condition under which the promise holds is
proved:

- the NSEC prover accepts a name equal to the next name of a record as covered, so a name error
  holds exactly when no listed next name is the name or the wildcard
  (`Nsec.NameErrorExact`, `Nsec.NameErrorFailsAtNextName`);
- `is_type_set` takes the octet of a window by the number of the type and not by its place in the
  window, so it finds exactly the listed types below 256 (`TypeBitmap.TypesReported`,
  `TypeBitmap.HighTypeMissed`); a type from 256 on is denied whether or not the name has it, and any
  other exactly when the name lacks it and is no alias (`Nsec.TypeDenialExact`, `Nsec.HighTypeDenied`);
- both provers take a record of the wildcard as a denial of the type without a look at its bitmap.
  The wildcard is then in the zone, and it lacks the type exactly when the record returned does
  (`Nsec.WildcardDenialExact`, `Nsec.WildcardTypeIgnored`, `Nsec3.WildcardDenial`,
  `Nsec3.WildcardTypeIgnored`);
- the NSEC3 prover's search for the closest encloser ends exactly when the last record's signer is
  not the root or some record matches some ancestor of the name; otherwise the root is stripped for
  ever (`Nsec3.SearchEndsExactly`, `Nsec3.SearchWithoutEnd`);
- the EDNS fallback of the I/O manager has an entry that disables EDNS, which its loop bound never
  reaches: EDNS is off after any number of fallbacks exactly when it was off before, and a size
  changes exactly when it is above 512 (`QueryIo.EdnsNeverDisabled`, `QueryIo.NoFallbackTo0`);
- a next try of zero counts as no event, so a source that finds no room for its socket can be left
  with no event to wake it (`QueryIo.WakeUpLost`). With room for the sockets that can be needed, or
  cancel times no further after the next tries than the clock is after zero, the event serves every
  source, whatever the timers were (`QueryIo.IoManager.CheckList`); when no source can be handled,
  it does so exactly when no next try is zero or something is before zero (`QueryIo.WakeUpExact`).

An NSEC3 name error does not rule out a wildcard without a record, as section 9.2 of RFC 5155 has
it, which asks for the opt-out flag of the next closer name only. In a zone that follows section 6
of that standard such a wildcard is an insecure delegation, or leads to one. What the records do
say about it is `Nsec3.WildcardAbsence`; `Nsec3.WildcardMissed` is a zone with such a wildcard.

`dafny verify dfyconfig.toml` checks the whole project.

## Model

| member | source | states |
|---|---|---|
| CanonOrder.MemCmp | dnssec-tools/validator/libsres/res_support.c:431-478 | the octet comparison that memcmp makes is the lexicographic order of the two prefixes |
| CanonOrder.LabelBytesCmp | dnssec-tools/validator/libsres/res_support.c:431-478 | the comparison over lower-cased local copies, shorter length first, has the sign of the case-folded order of the two labels |
| CanonOrder.LabelCmp | dnssec-tools/validator/libsres/res_support.c:480-536 | with its tables of label offsets, the comparison of equally many labels from the last one up is the canonical order of the two names |
| CanonOrder.NameCmp | dnssec-tools/validator/libsres/res_support.c:546-611 | on null pointers and on names in buffers, `namecmp` is the canonical order of section 6.1 of RFC 4034: lexicographic on the reversed label lists, an ancestor before its descendants |
| CanonOrder.StandardOrder | dnssec-tools/validator/libsres/res_support.c:546-611 | the order without the functions that compute it: one name sorts before another if and only if their last labels agree, ignoring case, up to a place where it has no more labels or the smaller one, and one label is smaller if and only if the octets agree up to a place where it ends or has the smaller octet |
| CanonOrder.CanonicalOrder | dnssec-tools/validator/libsres/res_support.c:538-611 | the order is antisymmetric and transitive, and two names compare equal exactly when they are the same name ignoring case |
| CanonOrder.AncestorSortsFirst | dnssec-tools/validator/libsres/res_support.c:546-611 | a proper ancestor sorts before the name |
| CanonOrder.SameOnWire | dnssec-tools/validator/libsres/res_support.c:538-611 | two names are the same ignoring case exactly when their wire forms are, octet by octet |
| CanonOrder.NameName | dnssec-tools/validator/libval/val_support.c:26-48 | although it stops at the first suffix that sorts lower, `namename` finds a suffix exactly when the little name encloses the big one, and it is that suffix |
| TypeBitmap.IsTypeSet | dnssec-tools/validator/libval/val_assertion.c:128-170 | the loop over the windows of any octets, well formed or not, gives the answer of the recursive `TypeBitmap.Scan` and stays inside the field |
| TypeBitmap.TypesReported | dnssec-tools/validator/libval/val_assertion.c:128-170 | on a bitmap as section 4.1.2 of RFC 4034 has it, a type is found if and only if it is listed and from 1 to 255 |
| TypeBitmap.HighTypeMissed | dnssec-tools/validator/libval/val_assertion.c:152-157 | a bitmap that lists type 257, which is not found |
| Nsec.ProveNsecSpan | dnssec-tools/validator/libval/val_assertion.c:2333-2507 | the loops of the prover, with its kept span, encloser and early returns, give the verdict of `Nsec.Judge` |
| Nsec.TypeDenialByRecords | dnssec-tools/validator/libval/val_assertion.c:2366-2424 | the prover denies the type at the query name itself if and only if some listed record without a bad offset is owned by that name and its bitmap lacks the type, 5 and 39, and for type 43 holds 2 and lacks 6; that record is then the whole verdict |
| Nsec.TypeDenialExact | dnssec-tools/validator/libval/val_assertion.c:2366-2424 | the same against the zone: if and only if the zone has the query name, its record is listed, and it has there neither the type, unless that is 256 or above, nor an alias, and for DS is a delegation |
| Nsec.HighTypeDenied | dnssec-tools/validator/libval/val_assertion.c:2398-2407 | a zone whose only name has type 257, which the prover denies |
| Nsec.WildcardDenialExact | dnssec-tools/validator/libval/val_assertion.c:2470-2506 | a type denied through a wildcard: the encloser is the true one, its wildcard is in the zone, the query name is not unless it is a listed next name, and the wildcard lacks the type if and only if the record returned does |
| Nsec.WildcardTypeIgnored | dnssec-tools/validator/libval/val_assertion.c:2470-2506 | a zone whose wildcard has the type asked for and a name that it would answer, for which the type is denied, for every type |
| Nsec.NameErrorAccepted | dnssec-tools/validator/libval/val_assertion.c:2333-2507 | completeness: if the zone has neither the query name nor the wildcard at its true encloser, and the records that span them are listed, the prover reports a name error |
| Nsec.HintedAccepted | dnssec-tools/validator/libval/val_assertion.c:2455-2466 | completeness with a hint: if the zone lacks the query name, its true encloser is at or above the hint, and a record that spans the name is listed, the span is kept |
| Nsec.EncloserUnique | dnssec-tools/validator/libval/val_assertion.c:2439-2450 | two true enclosers of a name are the same name |
| Nsec.StripToAncestor | dnssec-tools/validator/libval/val_assertion.c:2439-2450 | stripping labels ends at the part of the owner that it shares with the query name |
| Nsec.SharedBetween | dnssec-tools/validator/libval/val_assertion.c:2439-2450 | in canonical order, a name between two others shares at least as many labels with either as they share with each other |
| Nsec.EncloserIsTrue | dnssec-tools/validator/libval/val_assertion.c:2439-2450 | if one listed record of the zone covers the query name, the encloser kept is the longest ancestor of it that is at or above any owner of the zone |
| Nsec.CoverExact | dnssec-tools/validator/libval/val_assertion.c:2425-2436 | a record of the chain covers an existing name exactly when that name is its next name |
| Nsec.NameErrorExact | dnssec-tools/validator/libval/val_assertion.c:2333-2507 | section 5.4 of RFC 4035, exactly: on a reported name error the encloser is the true one, the query name exists in the zone if and only if it is the next name of some listed record, and so does the wildcard at the encloser |
| Nsec.NameErrorByRecords | dnssec-tools/validator/libval/val_assertion.c:2333-2507 | the same through the two records returned: each name exists precisely when it is the next name of its own record |
| Nsec.ListedIsOwned | dnssec-tools/validator/libval/val_assertion.c:2425-2436 | every listed next name is an owner of the zone |
| Nsec.NameErrorSound | dnssec-tools/validator/libval/val_assertion.c:2333-2507 | section 5.4 of RFC 4035: if no listed next name is the query name or the wildcard, neither is an owner of the zone |
| Nsec.NameErrorFailsAtNextName | dnssec-tools/validator/libval/val_assertion.c:2432-2436 | a zone and two of its records for which the prover reports a name error for a name that exists, because it accepts equality with the next name |
| Nsec.HintedSpanExact | dnssec-tools/validator/libval/val_assertion.c:2455-2466 | with a hint, for an answer expanded from a wildcard, a span that is kept shows that the true encloser is at or above the hint, and that the query name exists if and only if it is a listed next name |
| Nsec.EmptyNonTerminal | dnssec-tools/validator/libval/val_assertion.c:2439-2450 | the true encloser is a proper ancestor exactly when no owner is at or below the query name |
| Nsec3.ArcsPartition | dnssec-tools/validator/libval/val_assertion.c:56-64 | the arcs that CHECK_RANGE tests partition the hashes that are not on the ring, the wrapped arc and the one-record ring included, and contain none that is |
| Nsec3.MatchPass | dnssec-tools/validator/libval/val_assertion.c:2758-2870 | one pass over the list finds the first record that matches a candidate encloser |
| Nsec3.CoverPass | dnssec-tools/validator/libval/val_assertion.c:2889-2970 | one pass over the list finds the first record that covers a name, or matches it where that is allowed, and stops when a hash fails |
| Nsec3.ProveNsec3Span | dnssec-tools/validator/libval/val_assertion.c:2725-2980 | on every input on which its search ends, the prover, with its walk up from the query name, gives the verdict of `Nsec3.Judge` |
| Nsec3.SearchEndsExactly | dnssec-tools/validator/libval/val_assertion.c:2758-2868 | the search for the closest encloser ends if and only if the signer of the last record is not the root, or some record matches the query name or an ancestor of it, at the query name with a bitmap that denies the type |
| Nsec3.EncloserExact | dnssec-tools/validator/libval/val_assertion.c:2758-2868 | with a root signer last, the search from any label on finds an encloser exactly when some record matches an ancestor from there on |
| Nsec3.TypeDenialByRecords | dnssec-tools/validator/libval/val_assertion.c:2780-2845 | the type is denied at the query name itself if and only if some listed record has the hash of that name and its bitmap, if any, lacks the type, 5 and 39, and for type 43 holds 2 and lacks 6; otherwise a type is denied only with a record for the hash of the wildcard at the encloser |
| Nsec3.TypeDenialExact | dnssec-tools/validator/libval/val_assertion.c:2780-2845 | the same against the zone: if and only if the record for the hash of the query name is listed and the types of the zone there are none, or lack those |
| Nsec3.TypeDenialSound | dnssec-tools/validator/libval/val_assertion.c:2780-2845 | a type denied with no match at a wildcard, when no other name of the zone has the hash: the query name is signed in the zone and has neither the type, below 256, nor 5 nor 39, and for type 43 has 2 and not 6, or has no types |
| Nsec3.WildcardDenial | dnssec-tools/validator/libval/val_assertion.c:2931-2980 | a type denied through a wildcard, when no other name has its hash: the wildcard is signed in the zone, and the next closer name exists only without a record, and not at all without the opt-out flag |
| Nsec3.WildcardTypeIgnored | dnssec-tools/validator/libval/val_assertion.c:2931-2980 | a zone whose wildcard has the type asked for and a name that it would answer, for which the type is denied |
| Nsec3.NameErrorAccepted | dnssec-tools/validator/libval/val_assertion.c:2725-2980 | completeness: if the closest encloser is signed and matched by a listed record, no other hash on the ring is that of a longer ancestor or of the wildcard, and the arcs of the next closer name and of the wildcard are listed, the prover reports a name error |
| Nsec3.HintedAccepted | dnssec-tools/validator/libval/val_assertion.c:2889-2929 | completeness with a hint: if no name of the zone has the hash of the next closer name and the record for its arc, not an opt-out one, is listed, the proof is accepted |
| Nsec3.SearchWithoutEnd | dnssec-tools/validator/libval/val_assertion.c:2758-2868 | a record of the root zone and a hash that fails, for which the search is at the root after any number of rounds |
| Nsec3.RoundsStrip | dnssec-tools/validator/libval/val_assertion.c:2758-2868 | as long as it goes on, the search strips one label a round, down to the root, which stays |
| Nsec3.CoveredIsAbsent | dnssec-tools/validator/libval/val_assertion.c:56-64 | a name whose hash a record of the zone covers has no record, and does not exist unless the record is an opt-out one, for any hash function |
| Nsec3.NothingBelow | dnssec-tools/validator/libval/val_assertion.c:2725-2980 | in a zone closed under ancestors, an existing name has all its ancestors down from the apex |
| Nsec3.NameErrorSound | dnssec-tools/validator/libval/val_assertion.c:2725-2980 | sections 8.3 and 8.4 of RFC 5155: with all three records and neither flag, nothing exists at or below the next closer name, and the wildcard at the encloser exists if and only if the zone left it without a record, collisions of the hash notwithstanding |
| Nsec3.WildcardAbsence | dnssec-tools/validator/libval/val_assertion.c:2931-2980 | the records of a name error rule the wildcard out, in every zone they can come from, if and only if some listed record covers it and is not an opt-out one, which is so exactly when the record returned for it is not |
| Nsec3.SameFlag | dnssec-tools/validator/libval/val_assertion.c:56-64 | records of one zone that cover the same hash have the same opt-out flag |
| Nsec3.WildcardMissed | dnssec-tools/validator/libval/val_assertion.c:2889-2980 | a zone and its records for which a name error is reported without the opt-out flag although a wildcard without a record exists, as RFC 5155 allows |
| Nsec3.HintedSound | dnssec-tools/validator/libval/val_assertion.c:2889-2929 | with a hint, for an answer expanded from a wildcard, the next closer name has no record, and without the opt-out flag nothing exists at or below it |
| Nsec3.NameErrorReported | dnssec-tools/validator/libval/val_assertion.c:2725-2980 | a zone of one name, whose one arc is the whole ring but its own hash, and a name error reported from it |
| Nsec3.EncloserExists | dnssec-tools/validator/libval/val_assertion.c:2758-2870 | the encloser found exists unless its hash collides with that of another name of the zone |
| NameLength.WireNameLength | dnssec-tools/validator/libsres/res_query.c:36-60 | the result is not zero exactly for a valid name of at most 255 octets, and then it is the length of its wire form |
| Names.EncodeNameAt | dnssec-tools/validator/libsres/res_query.c:36-60 | the octets read for a name are its wire form, and its labels are valid |
| Names.NameAtEncode | dnssec-tools/validator/libsres/res_query.c:36-60 | reading a wire form gives back the labels it was made from |
| WireName.Unpack | dnssec-tools/validator/libsres/ns_name.c:360-443 | decompression ends on every message, pointer cycles included, stays inside both buffers, and succeeds exactly when the plain recursive expansion does, fits, and the guard is not reached; then the octets and the length consumed are those of the expansion |
| WireName.GuardNeverRejects | dnssec-tools/validator/libsres/ns_name.c:421-433 | the guard never rejects a name whose every segment lies wholly before the one that points to it |
| WireName.BackExpands | dnssec-tools/validator/libsres/ns_name.c:365-443 | such a name expands to its own labels, and the octets counted on the way are fewer than the message holds |
| WireName.Skip | dnssec-tools/validator/libsres/ns_name.c:636-674 | the loop of `ns_name_skip` reaches the end of the name as the recursive reading has it |
| WireName.UnpackAgreesWithSkip | dnssec-tools/validator/libsres/ns_name.c:636-674 | a name that unpacks is skipped over by exactly the octets that unpacking consumes |
| WireName.ExpandMonotone | dnssec-tools/validator/libsres/ns_name.c:365-443 | following more pointers never changes a name that could be read with fewer |
| WireName.BackStable | dnssec-tools/validator/libsres/ns_name.c:365-443 | octets changed or added after a name's segments do not change it |
| Compress.NameMatches | dnssec-tools/validator/libsres/ns_name.c:760-795 | the comparison of a name with one in the message, through pointers, is equality ignoring case |
| Compress.DnFind | dnssec-tools/validator/libsres/ns_name.c:742-799 | the search of the table and of every label of each entry finds the first usable earlier occurrence, as `Compress.Find` has it, or none |
| Compress.CheckName | dnssec-tools/validator/libsres/ns_name.c:484-506 | the first loop of `ns_name_pack` accepts exactly the legal names of at most 255 octets |
| Compress.Pack | dnssec-tools/validator/libsres/ns_name.c:462-564 | packing succeeds exactly when the name is legal and its packed form fits; the octets are those of `Compress.PackOctets`, earlier octets are untouched, the table gains the name's place where there is room, and a failure leaves the active entries as they were |
| Compress.Rollback | dnssec-tools/validator/libsres/ns_name.c:617-628 | afterwards the active entries are exactly those before that lie before the position |
| Compress.PackedReadsBack | dnssec-tools/validator/libsres/ns_name.c:462-564 | a packed name, written at the end of the message, reads back as the name ignoring case, every pointer below 0x4000 and strictly backward to an ordinary label |
| Compress.Extend | dnssec-tools/validator/libsres/ns_name.c:462-564 | octets added to a message change none of its names and none of its table |
| Compress.AddItemKeeps | dnssec-tools/validator/libsres/ns_name.c:462-564 | packing one more name keeps every name readable and the table sound and increasing |
| Compress.RunKeeps | dnssec-tools/validator/libsres/ns_name.c:462-564 | so does any sequence of names with any octets between them |
| Compress.EveryNameUnpacks | dnssec-tools/validator/libsres/ns_name.c:462-564 | section 4.1.4 of RFC 1035: after any sequence of packed names and other octets, every name written still unpacks to the name given, ignoring case |
| Compress.PackedAgain | dnssec-tools/validator/libsres/ns_name.c:462-564 | compression compresses: a name once packed, with room in the table and within the reach of a pointer, takes two octets whenever it is packed again, in any case of letters, after any other names and octets |
| Compress.MessageBuffer.constructor | dnssec-tools/validator/libsres/ns_name.c:462-483 | an empty message with an empty table |
| Compress.MessageBuffer.AddName | dnssec-tools/validator/libsres/ns_name.c:462-564 | on the buffer and the pointer array in place, adding a name is one step of such a sequence, and a failed one changes neither message nor table |
| MsgParser.SkipRr | dnssec-tools/validator/libsres/ns_parse.c:84-109 | skipping `count` records in a loop is `MsgParser.SkipRecords`, or -1 when a record leaves the message |
| MsgParser.SkipAdditive | dnssec-tools/validator/libsres/ns_parse.c:84-109 | skipping a + b records is skipping a and then b |
| MsgParser.LayoutSection | dnssec-tools/validator/libsres/ns_parse.c:111-153 | all records of a section that initialisation found lie inside the message |
| MsgParser.RecordFits | dnssec-tools/validator/libsres/ns_parse.c:155-225 | reading a record of such a section never leaves the message, and ends where the next record starts |
| MsgParser.FetchedFields | dnssec-tools/validator/libsres/ns_parse.c:155-225 | the fields of a fetched record are the octets behind its name in network order: type, class, and outside the question section time to live, length and where the data lie |
| MsgParser.Handle.InitParse | dnssec-tools/validator/libsres/ns_parse.c:111-153 | initialisation succeeds exactly when the octets are one message with nothing left over, and leaves a valid handle |
| MsgParser.Handle.SetSection | dnssec-tools/validator/libsres/ns_parse.c:227-238 | the cursor is at the first record of the section, or nowhere |
| MsgParser.Handle.ParseRr | dnssec-tools/validator/libsres/ns_parse.c:155-225 | any call, failing ones included, keeps the cursor equal to the section start plus the skip of `rrnum` records; for an explicit record number the result is the record that a plain scan finds |
| MsgParser.Handle.MoveTo | dnssec-tools/validator/libsres/ns_parse.c:178-186 | moving the cursor forward from where it is reaches the same place as a scan from the section start |
| MsgParser.Handle.ReadHere | dnssec-tools/validator/libsres/ns_parse.c:188-225 | the record at the cursor is the one `MsgParser.Fetch` finds, and the cursor moves past it only on success |
| MsgParser.DnExpand | dnssec-tools/validator/libsres/res_comp.c:79-89 | the octets consumed are those that skipping the name takes, and the root's text is empty |
| Message.WriteRead | dnssec-tools/validator/libsres/ns_parse.c:111-225 | write, then read: a message of any records in any sections, laid out as section 4.1 of RFC 1035 has it, is accepted with its counts, and each record is fetched back with exactly its name, type, class, time to live, length and data |
| Text.Ntop | dnssec-tools/validator/libsres/ns_name.c:73-166 | writing text fails exactly when the text and its NUL do not fit, and otherwise writes exactly them |
| Text.EscapesAre | dnssec-tools/validator/libsres/ns_name.c:73-166 | the escapes of section 5.1 of RFC 1035: exactly eight octets take a backslash, an octet that is not visible takes a backslash and three digits that have its value, and any other stands for itself |
| Text.TextBound | dnssec-tools/validator/libsres/ns_name.c:73-166 | the text of a valid name with its NUL takes at most 1004 octets |
| Text.TextBoundReached | dnssec-tools/validator/libsres/ns_name.c:73-166 | a valid name whose text with its NUL takes 1004 octets |
| Text.TextVisible | dnssec-tools/validator/libsres/ns_name.c:687-719 | the text consists of visible characters, so it is a C string |
| Text.Pton | dnssec-tools/validator/libsres/ns_name.c:179-302 | on any text without a bit-string label, the result is the fully-qualified flag and the wire form of the name read if that is valid and fits, and -1 otherwise; labels of 256 octets and more, which pass the check of one length octet, are still rejected |
| Text.TextReadsBack | dnssec-tools/validator/libsres/ns_name.c:73-302 | reading the text of any name gives back the name, with the flag set for the root only |
| Text.RoundTrip | dnssec-tools/validator/libsres/ns_name.c:73-302 | section 5.1 of RFC 1035: `ns_name_pton` on what `ns_name_ntop` writes gives every valid name back, octet for octet, into any buffer with room for it |
| Text.AcceptedIsValid | dnssec-tools/validator/libsres/ns_name.c:179-302 | whatever text is accepted, the buffer starts with a valid name |
| Text.TextInjective | dnssec-tools/validator/libsres/ns_name.c:73-166 | two names with the same text are the same |
| SubDomain.IsEscaped | dnssec-tools/validator/libsres/ns_samedomain.c:50-60 | the backward loop tells the parity of the backslashes before a character |
| SubDomain.NsSameDomain | dnssec-tools/validator/libsres/ns_samedomain.c:37-144 | the result is 1 exactly when the second text, trimmed of a final separator, is empty, equals the first ignoring case, or follows an unescaped dot in it |
| SubDomain.DotIsBoundary | dnssec-tools/validator/libsres/ns_samedomain.c:118-138 | a dot in the text of a name is escaped, or what follows it is the text of an ancestor |
| SubDomain.SameTextIsSame | dnssec-tools/validator/libsres/ns_samedomain.c:37-144 | texts are equal ignoring case exactly when the names are |
| SubDomain.SubdomainIsSuffix | dnssec-tools/validator/libsres/ns_samedomain.c:37-144 | on the texts of two names the test is true exactly when the second name encloses the first |
| Policy.FindTrustPoint | dnssec-tools/validator/libval/val_assertion.c:976-1043 | suffix by suffix over a list whose head moves, the lookup returns a copy of the part of the name enclosed by the first entry of the list that encloses it, and that entry's time to live |
| Policy.GetZse | dnssec-tools/validator/libval/val_assertion.c:887-973 | entry by entry, the lookup takes the status, place and time to live of the first entry with a policy that encloses the name, and the defaults if there is none |
| Policy.LongestMatch | dnssec-tools/validator/libval/val_assertion.c:887-1043 | on a list by decreasing length, the entry both lookups choose is at or below every enclosing entry, and there is none exactly when no entry encloses the name |
| Policy.SuffixFirstIsEntryFirst | dnssec-tools/validator/libval/val_assertion.c:1007-1035 | the suffix-first search finds the entry that the entry-first search finds |
| Walk.CutAndAppend | dnssec-tools/validator/libval/val_assertion.c:20-53 | the macros move the last label of one buffer, in place, to the front of the name in a new one, and do nothing on the root |
| Walk.VerifyProvablyInsecure | dnssec-tools/validator/libval/val_assertion.c:3825-4214 | with the results of the NS and DS queries on a tape, the walk over the two buffers, started below the trust point found, gives the outcome of `Walk.Verdict` |
| Walk.CutExactly | dnssec-tools/validator/libval/val_assertion.c:4083-4193 | a zone cut that is not at or above the zone reached: each of the five outcomes if and only if the DS answer meets a condition on its fields |
| Walk.SearchResults | dnssec-tools/validator/libval/val_assertion.c:3560-3609 | the loop over the results of an NS query finds the first owner that encloses the name asked about, or else that name, and nothing if an owner cannot be read before that |
| Walk.FindNextZonecut | dnssec-tools/validator/libval/val_assertion.c:3498-3627 | the zone cut reported, from a cached query or from the results, encloses the name asked about, and is `Walk.ZoneCut` |
| Walk.VerifyZonecutInRrsig | dnssec-tools/validator/libval/val_assertion.c:3777-3818 | the loop accepts exactly when there is a signer and every one is the zone reached |
| Walk.StepDown | dnssec-tools/validator/libval/val_assertion.c:3996-4200 | one round of the loop on the buffers is one round of the walk on names |
| Walk.WalkKeeps | dnssec-tools/validator/libval/val_assertion.c:3996-4025 | in every walk, whatever the answers, labels to go and name asked about make up the starting name, one label moves per round, and each ancestor is asked about at most once, from the top |
| Walk.AcceptedCut | dnssec-tools/validator/libval/val_assertion.c:4063-4081 | a zone cut that is accepted is properly below the zone before it and encloses the name asked about, whatever the queries answer |
| Walk.WalkDescends | dnssec-tools/validator/libval/val_assertion.c:4063-4200 | in every walk, whatever the answers, every zone accepted is properly below the one before |
| Walk.WalkFromAnchor | dnssec-tools/validator/libval/val_assertion.c:3890-4200 | the walk that starts at the trust anchor goes properly down from it, for any answers, and one that is not ended early asks about every ancestor below it |
| Walk.InsecureIsShown | dnssec-tools/validator/libval/val_assertion.c:4105-4165 | when the walk ends in insecure, the zone it is at is the zone reached before the last round, a zone cut was tried in that round, and its DS answer either is a missing type with a signer, every one of them that zone, or is a DS set signed by that zone with no known algorithm in it |
| Walk.InsecureEnds | dnssec-tools/validator/libval/val_assertion.c:4105-4165 | the converse: a walk that passes to a round in which a zone cut is tried and has such a DS answer ends in insecure |
| Walk.UnansweredEnds | dnssec-tools/validator/libval/val_assertion.c:4035-4101 | a walk that comes to a round whose NS query fails ends with nothing shown, and one that comes to a round whose NS query, or whose DS query at a zone cut that is tried, is not done is to be resumed |
| Walk.NeedMoreIsUnanswered | dnssec-tools/validator/libval/val_assertion.c:4035-4101 | the converse: a walk is to be resumed only if it comes to such a round |
| QueryIo.EveryRun | dnssec-tools/validator/libsres/res_io_manager.c:201-863 | in every state that any run of the manager's events reaches, each source has completed at most (retry + 1)(addresses + 1) + 3 sends, the socket count is the number of live sources with a socket, and it never exceeds the limit |
| QueryIo.BudgetKept | dnssec-tools/validator/libsres/res_io_manager.c:530-748 | no event on a source raises what it has sent plus what it may still send, and a send takes one from what is left |
| QueryIo.EventKeeps | dnssec-tools/validator/libsres/res_io_manager.c:201-748 | every event keeps the budgets and the exact count of sockets |
| QueryIo.GetTimeout | dnssec-tools/validator/libsres/res_io_manager.c:184-196 | the loop sums one delay for each try |
| QueryIo.IoManager.constructor | dnssec-tools/validator/libsres/res_io_manager.c:54-74 | no transactions, no sockets, no limit known |
| QueryIo.IoManager.Facts | dnssec-tools/validator/libsres/res_io_manager.c:201-863 | whatever operations were called, the present state has all that `QueryIo.EveryRun` says |
| QueryIo.IoManager.RetrySource | dnssec-tools/validator/libsres/res_io_manager.c:310-326 | the socket is closed and counted, and only the next try moves, to now |
| QueryIo.IoManager.ResetSource | dnssec-tools/validator/libsres/res_io_manager.c:332-348 | the socket is closed and counted, and only the cancel time moves, to now |
| QueryIo.IoManager.CancelSource | dnssec-tools/validator/libsres/res_io_manager.c:354-370 | the socket is closed and counted, and there are no more attempts |
| QueryIo.IoManager.CancelAll | dnssec-tools/validator/libsres/res_io_manager.c:372-377 | no source of the list is active or has a socket, and no other list changes |
| QueryIo.IoManager.Ship | dnssec-tools/validator/libsres/res_io_manager.c:394-539 | each way of failing and of succeeding: attempts and sends change only on success, too many sockets changes nothing, and a socket error leaves no socket |
| QueryIo.IoManager.ResetTimeouts | dnssec-tools/validator/libsres/res_io_manager.c:564-591 | the source is tried now, and the later ones without a socket move forward by as much as the next one had to wait |
| QueryIo.IoManager.NextAddressOf | dnssec-tools/validator/libsres/res_io_manager.c:694-748 | the next address with all its attempts, or the source is given up and the next one started if it waits |
| QueryIo.IoManager.NsFallback | dnssec-tools/validator/libsres/res_io_manager.c:598-692 | the search for a given server takes the first source that matches, and fails without a change if none does; then the next smaller EDNS size with one more attempt, the timers and the three results, the query being built again exactly when attempts are left and EDNS is on |
| QueryIo.EdnsNeverDisabled | dnssec-tools/validator/libsres/res_io_manager.c:602-661 | after any number of fallbacks EDNS is off if and only if it was off before; a size above 512 ends at 512 and any other stays |
| QueryIo.NoFallbackTo0 | dnssec-tools/validator/libsres/res_io_manager.c:602-661 | at 512 octets and out of attempts, where the last entry of the table would disable EDNS, the fallback fails and leaves the size |
| QueryIo.IoManager.TryNow | dnssec-tools/validator/libsres/res_io_manager.c:808-827 | if the source needs a socket and there is no room, nothing changes; otherwise the resend loop ends with exactly one more send, from the present address or a later one, the socket open, the attempts counted and both alarms set from the clock, or with the source given up at its last address |
| QueryIo.IoManager.CheckSource | dnssec-tools/validator/libsres/res_io_manager.c:785-838 | one round of the check: a source that timed out goes on to the next smaller size, to the next address with all its attempts, or is given up when there is none; one that is due and finds room is sent to or has tried all its addresses; any other is left alone and the event takes its timers |
| QueryIo.IoManager.CheckList | dnssec-tools/validator/libsres/res_io_manager.c:757-863 | each source of the list has its round, those behind one that was moved with their timers moved forward, and with room for the sockets that can be needed every source finds it; for any timers before, the event is afterwards no later than the next try and the cancel time of every source still active, if there is that room or no cancel time is as far after its next try as the clock after zero; if every source is left alone nothing changes and the event is that of `QueryIo.EventAfter` |
| QueryIo.DueIsSent | dnssec-tools/validator/libsres/res_io_manager.c:785-838 | after a pass over a list with room whose first source is due and not timed out, that source has one more send and an open socket and waits for at least its delay, or has run out of addresses |
| QueryIo.TimedOutGoesOn | dnssec-tools/validator/libsres/res_io_manager.c:785-838 | after a pass over a list whose first source timed out, that source has no socket and no more sends, its EDNS size is the next of 4096, 1492 and 512, it stays at its address or is at the next one with all its attempts, and it is given up only at its last address |
| QueryIo.WakeUpExact | dnssec-tools/validator/libsres/res_io_manager.c:757-863 | when every source is left alone, the event serves them all if and only if every active next try is set or a time is before zero |
| QueryIo.WakeUpLost | dnssec-tools/validator/libsres/res_io_manager.c:757-863 | for every reading of the clock, a run to a state at the socket limit in which a whole pass over a list leaves an active source with a next try of zero and the event as none, one socket and one second short of the conditions of `CheckList` |
| QueryIo.RoundTimers | dnssec-tools/validator/libsres/res_io_manager.c:785-838 | a source that has had its round has its cancel time set, and its next try too unless there was no room and its cancel time is that far after its next try |
| QueryIo.IoManager.Check | dnssec-tools/validator/libsres/res_io_manager.c:917-955 | each source of every transaction has its round at one reading of the clock, and the same event serves the active sources of all of them, if there is room for all sources, or no cancel time is as far after its next try as the clock after zero, whatever the timers were |
| QueryIo.IoManager.CheckOneTid | dnssec-tools/validator/libsres/res_io_manager.c:874-888 | the same of one transaction at the time given, active exactly when one of its sources is, with the other transactions unchanged |
| QueryIo.IoManager.FreeSlot | dnssec-tools/validator/libsres/res_io_manager.c:968-983 | the search around the table finds a free slot exactly when there is one |
| QueryIo.IoManager.Queue | dnssec-tools/validator/libsres/res_io_manager.c:958-1011 | a new source goes to the end of its list, or of a free one, and there is an error exactly when none is free |
| QueryIo.IoManager.SwitchToTcp | dnssec-tools/validator/libsres/res_io_manager.c:1483-1508 | the source is on TCP at the same address with all its attempts |
| QueryIo.IoManager.SwitchAllToTcp | dnssec-tools/validator/libsres/res_io_manager.c:1517-1537 | all sources are on TCP without a socket, attempts and timers untouched |
| QueryIo.IoManager.Read | dnssec-tools/validator/libsres/res_io_manager.c:1552-1630 | a read leaves a source alone, gives up on its address, or puts it on TCP, and does so only to active sources with data waiting |
| QueryIo.IoManager.DropResponse | dnssec-tools/validator/libsres/res_io_manager.c:1256-1272 | the socket is closed and counted, and the source is tried again now |
| QueryIo.IoManager.Cancel | dnssec-tools/validator/libsres/res_io_manager.c:1731-1749 | the list is freed and its sockets are no longer counted |
| Base64.B64Ntop | dnssec-tools/validator/libsres/base64.c:114-172 | the target gets the encoding and its NUL exactly when both fit |
| Base64.AlphabetIs | dnssec-tools/validator/libsres/base64.c:114-172 | the alphabet of Table 1 of RFC 4648 |
| Base64.TestVectors | dnssec-tools/validator/libsres/base64.c:114-172 | the seven test vectors of section 10 of RFC 4648 |
| Base64.B64Pton | dnssec-tools/validator/libsres/base64.c:187-310 | the four-state machine accepts a text exactly when the text without white space is what `b64_ntop` makes of some octets that can be decoded in the room there is, and writes those octets |
| Base64.EncodeInjective | dnssec-tools/validator/libsres/base64.c:114-172 | two octet strings with the same encoding are the same |
| Base64.RoundTrip | dnssec-tools/validator/libsres/base64.c:114-310 | section 4 of RFC 4648: with one octet to spare, decoding an encoding gives the octets back, for every octet string |
| Base64.Refused | dnssec-tools/validator/libsres/base64.c:187-310 | a text with a character that does not belong where it is, or non-zero left-over bits, encodes nothing that could be decoded there |
| Builder.DnComp | dnssec-tools/validator/libsres/ns_name.c:602-612 | the name read from the text is written in full when it and a spare octet fit |
| Builder.ResValNmkquery | dnssec-tools/validator/libsres/res_mkquery.c:96-200 | header and question of a query, exactly when the text is a name and there is room |
| Builder.ResValNopt | dnssec-tools/validator/libsres/res_mkquery.c:256-301 | the OPT record with the DO flag is appended and counted, exactly when it fits |
| Builder.TsigLengths | dnssec-tools/validator/libsres/res_tsig.c:186-201 | the lengths computed up front are those of the data and of the record written, for every time and MAC of the announced size |
| Builder.ResTsigSign | dnssec-tools/validator/libsres/res_tsig.c:229-353 | the record is laid out and counted as section 2.3 of RFC 2845 has it, the MAC covers the query before the count and the listed fields, and the buffer is filled exactly |
| Builder.ResCreateQueryPayload | dnssec-tools/validator/libsres/res_mkquery.c:202-254 | every payload made is accepted by the parser with no octet left over, has counts 1, 0, 0 and the number of OPT and TSIG records, and its question gives back the name, type and class |
| Builder.UnsignedParses | dnssec-tools/validator/libsres/res_mkquery.c:96-301 | the same of every unsigned query, for all names, types, classes and options |
| Builder.SignedParses | dnssec-tools/validator/libsres/res_tsig.c:282-350 | the same of every signed one, for any HMAC of the announced size |
| Builder.QuestionFetched | dnssec-tools/validator/libsres/res_mkquery.c:148-160 | `ns_parserr` on the question of a query gives the text of the name, the type and the class |
| Message.UnsignedIsMessage | dnssec-tools/validator/libsres/res_mkquery.c:96-301 | every unsigned query is, octet for octet, a message of one question and, with DNSSEC asked for, one additional record of the root with type 41, the EDNS size as class, time to live 0x8000 and no data |
| Message.SignedIsMessage | dnssec-tools/validator/libsres/res_tsig.c:229-353 | every signed query is that message with one more additional record, of the key name with type 250, class 255 and time to live 0 |
| Message.TsigLayout | dnssec-tools/validator/libsres/res_tsig.c:282-350 | the data of that record and the octets that the MAC covers, field by field with their widths in the order of sections 2.3 and 3.4 of RFC 2845 |

## Left out

- Nsec3.ProveNsec3Span: takes the inputs on which the search of the code ends, which `Nsec3.SearchEndsExactly` proves to be exactly those, since a method here has to end; and a hint that is a proper ancestor of the query name, without which the search for the next closer name would compare past the end of the name.
- Nsec.ProveNsecSpan: names are label sequences compared by the order that `CanonOrder.NameCmp` is proved to compute on octets; the bitmap of a record is the set of types that `is_type_set` reports of it, which is `TypeBitmap.TypesReported` for a well-formed one.
- Compress.Pack: source names have no bit-string label and no label octet of 0x80 to 0xBF; the code would copy the latter as if they were lengths.
- WireName.Unpack: bit-string labels are handled as the octets they take, and a count octet that would lie just outside the message counts as a malformed label.
- MsgParser.DnExpand: the text of a name is an arbitrary function that stops at the root octet, because names unpacked from a message may hold bit-string labels; for ordinary names `Text.Ntop` is that function.
- MsgParser.Handle.ParseRr: a record number of -1 means the record at the cursor, as in the code; other negative numbers are errors.
- Text.Pton: texts with a bit-string label, which an escaped bracket starts, are not read; the text is given without its NUL.
- QueryIo.IoManager.CheckList: the delay between sends is not negative, and a time that is given is not before zero; without that a send can set a timer to zero. The count of changed sockets that is returned for statistics is not modelled.
- QueryIo.IoManager.Read: the octets of a response and the comparison of its question are arbitrary outcomes.
- QueryIo.IoManager.NsFallback: whether a source has the name and address of a given server is an arbitrary predicate on sources.
- Walk.VerifyProvablyInsecure: the zone reached and the owners and signers in the answers are label sequences, and no DLV target is used; return codes other than the outcome are not modelled.
- Walk.FindNextZonecut: the search through earlier queries for a cached zone cut, and the choice of one record of each result, are in the answer.
- Policy.FindTrustPoint: the allocation of the copy does not fail.
- Builder.ResTsigSign: the key names are given as names; parsing of the configuration string `name:alg:fudge:key` is not modelled.
- Builder.DnComp: called with a table that holds the start of the message only, as the query opcode does; notify and inverse queries are not modelled.
- Base64.B64Pton: a null target, which only counts octets, is not modelled; white space is that of the C locale.
- Cryptography: RRSIG and DS checks, the hash of NSEC3 and the HMAC are uninterpreted.
- `val_policy`, `val_verify`, `val_cache` and `val_resquery` internals, the whole verification loop and the recursive query search are not part of this model.
- `ns_makecanon` and `ns_samename`, which look only two characters back from a dot, and the printing of LOC, NSAP, TTL and records, which would add easy members only.
- Real sockets, `select`, port randomisation, allocation failures, logging and locking.
