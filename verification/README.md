# IP address directory: a Dafny model of its AVL tree and validators

The IP-Address-Manager program keeps a directory of hosts. Each record pairs a
short lower-case alias with a dotted-quad IPv4 address. The records sit in an
AVL tree ordered by alias under `strcmp`. This project models that tree and the
operations the menu drives: insert, delete, look-up, address update, the
duplicate scan, the location scan, and the validators that
guard them. Each operation is a pure function over an immutable tree. The
lemmas state what the program relies on:

- the AVL and search-tree invariants survive every operation;
- the record set changes exactly as intended;
- `validateIP` accepts exactly the well-formed addresses, and the prefix
  check accepts exactly the well-formed prefixes once its buffer truncation
  is corrected;
- a directory of valid records with distinct addresses stays that way under
  the interactive commands.

Modules, in dependency order:

- `Wrappers`: `Option` and `Result`.
- `CStrings`: the C string primitives the code uses. These are `strcmp` as
  `Cmp`, `strcasecmp(..) == 0` as `EqualsIgnoreCase`, `strncmp` against a
  prefix's length as `MatchesPrefix`, `tolower` as `Lower`/`ToLower`,
  `strlen` as `ByteLength` (the UTF-8 length), and `containsUppercase`.
- `Validation`: `validateIP` (an `sscanf("%d.%d.%d.%d%c")` model plus the
  octet range and dot count), `validateAlias` and `isValidIPv4Prefix`.
- `AvlTree`: the node record, `getHeight`, `getBalanceFactor`,
  `updateHeight`, the in-order and pre-order views, and the invariants.
- `Rebalancing`: `rebalance` and the four rotations. They are mutually
  recursive in the C code and carry a `fuel` bound here.
- `Insertion`, `Deletion`: `insert` and `deleteNode`.
- `Lookup`: `findNodeByAlias`, the `lookUpAddress` loop, and the in-place
  address overwrite.
- `Scans`: `isDuplicate`, and the location scan both as written and as
  intended.
- `Commands`: `addAddress`, `updateAddress`, `deleteAddress`, the per-line
  work of `parseFile`, and `displayAliasesForLocation`. Each is one attempt
  that returns either the new tree or the reason the C code prints.

Where the code and its description disagree, the model follows the code:

- Inserting an alias that is already present changes nothing. The old
  address stays.
- `validateAlias` checks only the length, and `strlen` counts bytes, not
  characters. The uppercase check is a separate call, made only when reading
  the input file.
- `addAddress` compares aliases case-insensitively and stores the lower-cased
  alias. Look-up, update and delete compare the alias exactly as typed.
- `Commands.LocationQuery` is the location query as written. It checks the
  prefix through the 16-byte truncating buffer, visits nodes in pre-order, and
  matches the address text against the typed prefix, not against octets.
  `Commands.LocationQueryIntended` is the corrected query that compares the
  first two octets (see Findings).

## Model

| member | source | states |
|---|---|---|
| AvlTree.HeightIsDepth | IP.c:298-300 | when heights are maintained, getHeight is the number of nodes on the longest downward path, an absent child counting 0 |
| AvlTree.BalanceFactorIsDepthDifference | IP.c:303-306 | getBalanceFactor of a node is the depth of its left subtree minus the depth of its right subtree |
| AvlTree.UpdateHeight | IP.c:298-316 | the height becomes one more than the taller child, an absent child counting 0; nothing else in the node changes |
| AvlTree.FreshLeafHasHeightOne | IP.c:203-209 | a freshly allocated node with no children has height 1 |
| AvlTree.PreOrderPermutesInOrder | IP.c:603-614 | the pre-order walk visits the same records as the in-order walk, each as often |
| AvlTree.BstAliasesUnique | IP.c:213-219 | in a search tree ordered by strcmp no alias occurs twice |
| CStrings.Cmp | IP.c:213-216 | strcmp reports only the sign: -1, 0 or 1 |
| CStrings.CmpIsLexicographic | IP.c:213-216 | strcmp is negative exactly when the first string is a proper prefix of the second, or the two first differ at a position where the first string's character is smaller |
| CStrings.CmpZeroIffEqual | IP.c:586-587 | strcmp returns 0 exactly when the two strings are equal |
| CStrings.LessTrichotomy | IP.c:213-219 | strcmp order is total: two different aliases are ordered one way and not the other |
| CStrings.LessTransitive | IP.c:213-219 | strcmp order is transitive, so left and right subtrees stay separated by their root |
| CStrings.EqualsIgnoreCaseIff | IP.c:150 | strcasecmp reports equality exactly when the two lower-cased strings are equal |
| CStrings.MatchesPrefixIff | IP.c:607 | strncmp against the prefix length is 0 exactly when the prefix starts the address |
| CStrings.ToLower | IP.c:498-500 | every character is mapped by tolower and the length is unchanged |
| CStrings.Lower | IP.c:498-500 | capitals move to their lower-case letter; every other character is kept |
| CStrings.ByteLength | IP.c:134 | strlen of a string's UTF-8 encoding is at least its number of characters and at most four times it |
| CStrings.ByteLengthOfAscii | IP.c:134 | for ASCII text strlen equals the number of characters |
| CStrings.ByteLengthOfLower | IP.c:484-500 | lower-casing does not change strlen, so the length checked in addAddress is the length of the stored alias |
| CStrings.ContainsUppercase | IP.c:190-198 | true exactly when some character is between 'A' and 'Z' |
| Rebalancing.Rebalance | IP.c:228-243 | rebalancing never changes the in-order sequence of records |
| Rebalancing.RotateLeft | IP.c:248-263 | a left rotation keeps the in-order sequence |
| Rebalancing.RotateRight | IP.c:265-280 | a right rotation keeps the in-order sequence |
| Rebalancing.RotateLeftThenRight | IP.c:284-288 | the left-right double rotation keeps the in-order sequence |
| Rebalancing.RotateRightThenLeft | IP.c:291-295 | the right-left double rotation keeps the in-order sequence |
| Rebalancing.RebalanceOfBalanced | IP.c:228-243 | a node whose balance factor is within [-1, 1] is returned unchanged |
| Rebalancing.LeftLeftCase | IP.c:231-232 | a left-heavy node whose left child is not right-heavy gets one right rotation, giving an AVL subtree as tall as the left child or one taller |
| Rebalancing.RightRightCase | IP.c:236-237 | the mirror case: one left rotation, giving an AVL subtree as tall as the right child or one taller |
| Rebalancing.LeftRightCase | IP.c:231-234 | whichever way the nested rebalance calls go, the left-right case ends in the textbook double rotation, an AVL subtree as tall as the left child |
| Rebalancing.RightLeftCase | IP.c:236-239 | the mirror case ends in the textbook right-left double rotation, an AVL subtree as tall as the right child |
| Rebalancing.RebalanceRestores | IP.c:228-243 | a node with AVL children differing in height by at most 2 becomes an AVL tree whose height is the taller child's height or one more |
| Insertion.Insert | IP.c:202-224 | the alias is present afterwards; the new record is added exactly when the alias was absent; no other record changes |
| Insertion.InsertKeepsAvl | IP.c:202-224 | on an AVL search tree, insert keeps both invariants, grows the height by at most one, and leaves the tree untouched when the alias exists |
| Insertion.InsertFresh | IP.c:202-224 | inserting a fresh alias gives an AVL search tree holding the old records plus the new one |
| Deletion.MinEntry | IP.c:389-392 | the leftmost walk finds the first record in alias order |
| Deletion.SuccessorFollowsDeleted | IP.c:389-396 | the record copied into a node with two children is its in-order successor |
| Deletion.Delete | IP.c:365-408 | deletion only removes records; an absent alias leaves the in-order sequence unchanged |
| Deletion.DeleteKeepsAvl | IP.c:365-408 | on an AVL search tree, deletion keeps both invariants, removes exactly the record with that alias, keeps the order of the rest, and lowers the height by at most one |
| Deletion.DeleteEntries | IP.c:365-408 | the records afterwards are the old records minus the one with that alias |
| Lookup.FindByAlias | IP.c:582-593 | a node it returns carries the alias asked for and is a record of the tree |
| Lookup.FindByAliasComplete | IP.c:582-593 | on a search tree the node is found exactly when the alias is present |
| Lookup.LookUpAddress | IP.c:319-336 | the loop reports a record of the tree; on a search tree it reports one exactly when the alias is present |
| Lookup.SetAddress | IP.c:536 | overwriting an address changes no height, no balance factor, and no alias |
| Lookup.SetAddressKeepsOrder | IP.c:536 | overwriting an address keeps the search-tree order |
| Lookup.SetAddressEntries | IP.c:536 | on a search tree, overwriting changes exactly the address of the record with that alias |
| Lookup.ReplaceIpMembers | IP.c:536 | after the overwrite the records are the untouched ones plus the record with the new address |
| Lookup.SetAddressAliases | IP.c:536 | overwriting an address keeps the set of aliases |
| Scans.IsDuplicate | IP.c:141-155 | true exactly when some record has that address, or an alias equal ignoring case |
| Scans.PrefixScan | IP.c:603-614 | reports exactly the records whose address text starts with the typed prefix |
| Scans.PrefixScanIsPreOrder | IP.c:603-614 | the records are reported in pre-order (node, left, right) |
| Scans.OctetPrefixScan | IP.c:549-564 | reports exactly the records whose address starts with the prefix followed by a dot |
| Scans.OctetPrefixMatchesFirstOctets | IP.c:549-564 | for a dotted quad, "x.y." starts the address exactly when x and y are its first two octets |
| Scans.PrefixScanOverMatches | IP.c:603-614 | a record at 10.100.x.x is reported for prefix 10.1 by the textual scan but not by the octet scan |
| Validation.DigitRunMaximal | IP.c:110 | %d reads the longest run of digits |
| Validation.ScanDecimalReads | IP.c:110 | a %d conversion consumes a non-empty digit run and leaves text that does not start with a digit |
| Validation.ScanFieldsRejoins | IP.c:110 | the dot-separated fields that sscanf matched, rejoined with dots and the unread rest, give back the input |
| Validation.ScanFieldsReadsDigits | IP.c:110 | every field sscanf matched is a non-empty digit run |
| Validation.ValidateIPComplete | IP.c:105-129 | four octets of digits, each at most 255, joined by three dots, are accepted |
| Validation.ValidateIPSound | IP.c:105-129 | every accepted string is four octets of digits, each at most 255, joined by dots, with nothing after them |
| Validation.AccentedAliasTooLong | IP.c:133-138 | validateAlias rejects a 7-character alias of accented letters, because its 14 bytes exceed the limit of 10 |
| Validation.AsciiAliasFits | IP.c:133-138 | an ASCII alias is accepted exactly when it has at most 10 characters |
| Validation.PrefixComplete | IP.c:596-600 | "x.y" with x and y octets is accepted as a location prefix |
| Validation.PrefixSound | IP.c:596-600 | every accepted prefix is exactly two octets joined by a dot |
| Validation.PrefixHasOneDot | IP.c:596-600 | an accepted prefix has exactly one dot |
| Validation.AsWrittenAcceptsFullAddress | IP.c:596-600 | the 16-byte buffer truncation makes the C check accept a full address such as 100.100.100.100 |
| Validation.PrefixVersionsAgreeOnShortInput | IP.c:549-552 | for any text the 8-byte prefix buffer can hold, the truncating check and the intended check agree |
| Commands.AddAddress | IP.c:460-504 | a successful add makes the lower-cased alias present and keeps every other alias |
| Commands.AddAddressRejects | IP.c:460-504 | each failure reason holds exactly under its condition, checked in the C order: bad address, duplicate address, alias too long, duplicate alias ignoring case |
| Commands.AddAddressKeepsDirectory | IP.c:460-504 | a successful add keeps the directory well formed, adds exactly one record with the lower-cased alias, and keeps addresses distinct |
| Commands.AddExistingAddressRejected | IP.c:473-476 | adding the same address a second time is refused as a duplicate address |
| Commands.UpdateAddress | IP.c:507-546 | a successful update keeps the set of aliases |
| Commands.UpdateAddressKeepsDirectory | IP.c:507-546 | a successful update leaves a well-formed tree that needs no rotation, changes only that alias's address, and keeps addresses distinct |
| Commands.DeleteAddress | IP.c:339-362 | a successful delete only removes records |
| Commands.DeleteAddressKeepsDirectory | IP.c:339-362 | "not found" is reported exactly when the alias is absent; a confirmed delete keeps the directory well formed and removes exactly that alias |
| Commands.IngestRecord | IP.c:176-182 | an accepted input line's alias is present afterwards |
| Commands.IngestRecordKeepsDirectory | IP.c:176-182 | an accepted line keeps the directory well formed; a fresh alias adds exactly its record and an existing alias changes nothing |
| Commands.Ingest | IP.c:165-183 | reading a file never loses an alias |
| Commands.IngestKeepsDirectory | IP.c:165-183 | reading a whole file of lines keeps the directory well formed |
| Commands.IngestAllowsDuplicateAddress | IP.c:176-181 | the file reader does not check for duplicate addresses: two aliases with one address both get in |
| Commands.LocationQuery | IP.c:549-564 | the query as written: "invalid prefix" exactly when the truncating check of lines 596-600 fails; otherwise it lists the records whose address text starts with the prefix, in pre-order, and no others |
| Commands.LocationQueryOverMatches | IP.c:603-614 | for prefix x.y, a record whose second octet continues past y (10.100.0.1 for "10.1") is listed by the query as written and not by the corrected query |
| Commands.LocationQueryIntended | IP.c:549-564 | corrected half of the IP.c:603-614 finding: the query reports only records of the directory |
| Commands.LocationQueryMatchesOctets | IP.c:549-564 | corrected half of the IP.c:603-614 finding: for prefix x.y the corrected query reports exactly the records whose first two octets are x and y |
| Commands.LocationQueryPrefixShape | IP.c:596-600 | corrected half of the IP.c:596-600 finding: the corrected query reports "invalid prefix" exactly when the untruncated check fails, and otherwise the prefix is two octets joined by a dot |

## Left out

- Terminal and file I/O are not modelled: the menu loop in `main`, `scanf`/`printf`, `fopen`/`fgets`, and the error-log file (`displayErrorLog`). An operation returns the new tree or a `Failure` naming the message the C code prints.
- The prompt loops in `addAddress` and `updateAddress` repeat until the input is valid. The model makes one attempt and returns the failure.
- `parseFile`'s split of a line into two words (`sscanf("%s %s")`) is not modelled. `Commands.Ingest` takes the already-split records.
- Memory management is not modelled: `malloc`, `free` and `freeTree`.
- Parent pointers are not modelled. Neither are `calculateDepth` and the depth and parent columns of `displayList`. The displayed order is the in-order view `AvlTree.InOrder`.
- Commands.UpdateAddress: the ancestor walk in `updateAddress` (lines 539-542) is not modelled, and it does not always end. When `deleteNode` removes a node with one child, `*node = *temp` (line 383) also copies the child's `parent` field, so the surviving node can become its own parent. Example: insert "a", insert "b", delete "a", then update "b". The walk `parent = rebalance(parent)->parent` (lines 540-541) then never ends. `calculateDepth` (lines 617-624), called by `displayList`, loops the same way on such a node. The model applies only the final `rebalance(root)` and returns, so it promises nothing about that hang. On the trees where the walk does end, `Commands.UpdateAddressKeepsDirectory` proves that call is the identity: an address change alters no height, so each rebalance on the walk changes nothing.
- `findNodeByIP` is never called by the program and is not modelled. It walks the alias-ordered tree by address, so it would be wrong anyway.
- Validation.ValidateIP: the `%d` conversion is modelled as an unsigned digit run. `sscanf` also skips leading white space, accepts a sign and overflows on long digit runs. White space cannot occur because the input comes from `%s`. A leading `-` or `+` is rejected here but accepted by `sscanf` when the value stays in 0..255, such as "+1.2.3.4".
- Rebalancing.Rebalance: the mutual recursion carries a fuel bound. The operations pass 2, and `Rebalancing.RebalanceRestores` proves that suffices for every node insertion and deletion produce. Deeper chains of rotate-then-rebalance calls on other inputs are not modelled.
- Validation.ValidateAlias: a string is a sequence of Unicode scalar values, and `strlen` is its UTF-8 byte count (`CStrings.ByteLength`). Input bytes that are not valid UTF-8, and other terminal encodings, are not modelled.
- Heights are `nat`, not C `int`. A tree deep enough to overflow an `int` height cannot fit in memory.
- The NUL terminator and fixed buffer sizes are not modelled, apart from the 16-byte buffer in `isValidIPv4Prefix`. That includes `alias[MAX_ALIAS_LENGTH + 1]` and overflows from `scanf("%s")`.
- `aws_services.c` is not part of this model.

## Findings

| source | as written | input that shows it | evidently intended | confidence | as-written member | corrected member |
|---|---|---|---|---|---|---|
| IP.c:596-600 | `snprintf` into a 16-byte buffer cuts `"%s.0.0"` to 15 characters, so a full address becomes its own "prefix" | prefix "100.100.100.100": the buffer holds "100.100.100.100", which `validateIP` accepts | accept only two octets joined by a dot | not executed; low, because the caller's 8-byte `prefix` buffer only admits such text past an overflow | Validation.AsWrittenAcceptsFullAddress | Validation.PrefixSound |
| IP.c:603-614 | the scan compares address text, so prefix "10.1" also matches 10.100.x.x, 10.15.x.x and so on | directory record 10.100.0.1 with prefix "10.1" | report records whose first two octets are the two typed ones | not executed; high | Commands.LocationQueryOverMatches | Commands.LocationQueryMatchesOctets |
