/** The decisions the menu commands and the file loader take around the
    tree.  The C re-prompts after a rejected input; here one call is one
    attempt, and a rejection is an `Err` naming the message the C prints. */
module Commands {
  import opened Wrappers
  import opened CStrings
  import opened Validation
  import opened AvlTree
  import opened Rebalancing
  import opened Insertion
  import opened Deletion
  import opened Lookup
  import opened Scans

  datatype Failure =
    | InvalidAddress   // "Invalid IP address format."
    | DuplicateAddress // "Duplicate IP address."
    | InvalidAlias     // "Invalid alias."
    | DuplicateAlias   // "Duplicate alias."
    | AliasNotFound    // "Alias '...' not found."
    | Cancelled        // "Deletion canceled."
    | InvalidPrefix    // "Invalid prefix format."
    | InvalidEntry     // the loader's "Invalid entry" log line

  /** What every command keeps: an AVL search tree whose records passed the
      address and alias checks, with aliases stored in lower case. */
  ghost predicate WellFormed(t: Tree) {
    && IsAvl(t) && IsBst(t)
    && forall e :: e in Entries(t) ==> RecordOk(e)
  }

  /** A record as addAddress or the loader would admit it. */
  predicate RecordOk(e: Entry) {
    ValidateIP(e.ip) && ValidateAlias(e.alias) && !ContainsUppercase(e.alias)
  }

  lemma DistinctGrows(t: Tree, r: Tree, e: Entry)
    requires DistinctAddresses(t) && Entries(r) <= Entries(t) + {e}
    requires forall f :: f in Entries(t) ==> f.ip != e.ip
    ensures DistinctAddresses(r)
  {
  }

  lemma WellFormedGrows(t: Tree, r: Tree, e: Entry)
    requires WellFormed(t) && IsAvl(r) && IsBst(r) && Entries(r) <= Entries(t) + {e} && RecordOk(e)
    ensures WellFormed(r)
  {
  }

  /** No two records share an address. The interactive commands keep this;
      the file loader does not. */
  ghost predicate DistinctAddresses(t: Tree) {
    forall e, f :: e in Entries(t) && f in Entries(t) && e.ip == f.ip ==> e == f
  }

  lemma ToLowerHasNoUppercase(s: string)
    ensures !ContainsUppercase(ToLower(s))
  {
  }

  // ---------------------------------------------------------------------
  // addAddress

  /** addAddress: address checks, then alias checks, then insert the alias in lower case. */
  function AddAddress(t: Tree, ip: string, alias: string): (r: Result<Tree, Failure>)
    ensures r.Ok? ==> Aliases(r.value) == Aliases(t) + {ToLower(alias)}
  {
    if !ValidateIP(ip) then Err(InvalidAddress)
    else if IsDuplicate(t, Some(ip), None) then Err(DuplicateAddress)
    else if ByteLength(alias) > MaxAliasLength then Err(InvalidAlias)
    else if IsDuplicate(t, None, Some(alias)) then Err(DuplicateAlias)
    else Ok(Insert(t, ToLower(alias), ip))
  }

  lemma AddressCollision(t: Tree, ip: string)
    ensures IsDuplicate(t, Some(ip), None) <==> exists e :: e in Entries(t) && e.ip == ip
  {
    if exists e :: e in Entries(t) && e.ip == ip {
      var e :| e in Entries(t) && e.ip == ip;
      assert Collides(e, Some(ip), None);
    }
  }

  lemma AliasCollision(t: Tree, alias: string)
    ensures IsDuplicate(t, None, Some(alias)) <==>
      exists e :: e in Entries(t) && ToLower(e.alias) == ToLower(alias)
  {
    if exists e :: e in Entries(t) && ToLower(e.alias) == ToLower(alias) {
      var e :| e in Entries(t) && ToLower(e.alias) == ToLower(alias);
      assert Collides(e, None, Some(alias));
    }
  }

  /** An alias no record matches ignoring case is absent in lower case too. */
  lemma LowerAliasFresh(t: Tree, alias: string)
    requires !IsDuplicate(t, None, Some(alias))
    ensures ToLower(alias) !in Aliases(t)
  {
    AliasCollision(t, alias);
    if ToLower(alias) in Aliases(t) {
      var e :| e in InOrder(t) && e.alias == ToLower(alias);
      assert e in Entries(t);
      EqualsIgnoreCaseIff(ToLower(alias), alias);
      LowerMatchesOriginal(alias);
    }
  }

  /** Which inputs addAddress turns away, stated over the records. */
  lemma AddAddressRejects(t: Tree, ip: string, alias: string)
    ensures AddAddress(t, ip, alias) == Err(InvalidAddress) <==> !ValidateIP(ip)
    ensures AddAddress(t, ip, alias) == Err(DuplicateAddress) <==>
      ValidateIP(ip) && exists e :: e in Entries(t) && e.ip == ip
    ensures AddAddress(t, ip, alias) == Err(InvalidAlias) <==>
      && ValidateIP(ip) && (forall e :: e in Entries(t) ==> e.ip != ip)
      && !ValidateAlias(alias)
    ensures AddAddress(t, ip, alias) == Err(DuplicateAlias) <==>
      && ValidateIP(ip) && (forall e :: e in Entries(t) ==> e.ip != ip)
      && ValidateAlias(alias)
      && exists e :: e in Entries(t) && ToLower(e.alias) == ToLower(alias)
    ensures AddAddress(t, ip, alias).Ok? <==>
      && ValidateIP(ip) && ValidateAlias(alias)
      && (forall e :: e in Entries(t) ==> e.ip != ip)
      && (forall e :: e in Entries(t) ==> ToLower(e.alias) != ToLower(alias))
  {
    AddressCollision(t, ip);
    AliasCollision(t, alias);
  }

  /** What an accepted call has established, in the order the C checks it. */
  lemma AddAddressAccepted(t: Tree, ip: string, alias: string)
    requires AddAddress(t, ip, alias).Ok?
    ensures ValidateIP(ip) && ValidateAlias(alias)
    ensures !IsDuplicate(t, Some(ip), None) && !IsDuplicate(t, None, Some(alias))
    ensures AddAddress(t, ip, alias).value == Insert(t, ToLower(alias), ip)
  {
  }

  /** An accepted address is recorded under the lower-cased alias, and the
      directory invariants survive. */
  lemma AddAddressKeepsDirectory(t: Tree, ip: string, alias: string)
    requires WellFormed(t)
    requires AddAddress(t, ip, alias).Ok?
    ensures WellFormed(AddAddress(t, ip, alias).value)
    ensures Entries(AddAddress(t, ip, alias).value) == Entries(t) + {Entry(ToLower(alias), ip)}
    ensures DistinctAddresses(t) ==> DistinctAddresses(AddAddress(t, ip, alias).value)
  {
    AddAddressAccepted(t, ip, alias);
    var a, r := ToLower(alias), AddAddress(t, ip, alias).value;
    LowerAliasFresh(t, alias);
    AddressCollision(t, ip);
    InsertFresh(t, a, ip);
    ToLowerHasNoUppercase(alias);
    ByteLengthOfLower(alias);
    assert RecordOk(Entry(a, ip));
    WellFormedGrows(t, r, Entry(a, ip));
    if DistinctAddresses(t) {
      DistinctGrows(t, r, Entry(a, ip));
    }
  }

  /** A second record with an address already present is rejected. */
  lemma AddExistingAddressRejected(t: Tree, ip: string, a: string, b: string)
    requires AddAddress(t, ip, a).Ok?
    ensures AddAddress(AddAddress(t, ip, a).value, ip, b) == Err(DuplicateAddress)
  {
    AddAddressAccepted(t, ip, a);
    var r := AddAddress(t, ip, a).value;
    LowerAliasFresh(t, a);
    assert Entry(ToLower(a), ip) in Entries(r);
    AddressCollision(r, ip);
  }

  // ---------------------------------------------------------------------
  // updateAddress

  /** updateAddress: find the alias, check the new address, overwrite it and
      rebalance the root. */
  function UpdateAddress(t: Tree, a: string, ip: string): (r: Result<Tree, Failure>)
    ensures r.Ok? ==> Aliases(r.value) == Aliases(t)
  {
    if FindByAlias(t, a).None? then Err(AliasNotFound)
    else if !ValidateIP(ip) then Err(InvalidAddress)
    else if IsDuplicate(t, Some(ip), None) then Err(DuplicateAddress)
    else
      SetAddressAliases(t, a, ip);
      Ok(Rebalance(SetAddress(t, a, ip), RebalanceFuel))
  }

  /** What an accepted update has established, in the order the C checks it. */
  lemma UpdateAddressAccepted(t: Tree, a: string, ip: string)
    requires UpdateAddress(t, a, ip).Ok?
    ensures FindByAlias(t, a).Some? && ValidateIP(ip) && !IsDuplicate(t, Some(ip), None)
    ensures UpdateAddress(t, a, ip).value == Rebalance(SetAddress(t, a, ip), RebalanceFuel)
  {
  }

  /** Replacing the address of a present alias by a valid one keeps the
      records admissible, and keeps addresses distinct when the new one is unused. */
  lemma ReplacedRecords(t: Tree, u: Tree, a: string, ip: string)
    requires WellFormed(t) && IsAvl(u) && IsBst(u)
    requires InOrder(u) == ReplaceIp(InOrder(t), a, ip)
    requires a in Aliases(t) && ValidateIP(ip)
    ensures WellFormed(u) && Entry(a, ip) in Entries(u)
    ensures DistinctAddresses(t) && (forall e :: e in Entries(t) ==> e.ip != ip) ==>
      DistinctAddresses(u)
  {
    var s := InOrder(t);
    var before :| before in s && before.alias == a;
    ReplaceIpMembers(s, a, ip, before);
    assert before in Entries(t);
    forall e | e in Entries(u)
      ensures RecordOk(e)
      ensures e == Entry(a, ip) || (e in Entries(t) && e.alias != a)
    {
      ReplaceIpMembers(s, a, ip, e);
    }
    if DistinctAddresses(t) && (forall e :: e in Entries(t) ==> e.ip != ip) {
      forall e, f | e in Entries(u) && f in Entries(u) && e.ip == f.ip
        ensures e == f
      {
        if e != Entry(a, ip) && f != Entry(a, ip) {
          assert e in Entries(t) && f in Entries(t);
        }
      }
    }
  }

  /** The overwrite changes one record's address and nothing else: the
      rebalance finds every node balanced and returns the tree as it is. */
  lemma UpdateAddressKeepsDirectory(t: Tree, a: string, ip: string)
    requires WellFormed(t)
    requires UpdateAddress(t, a, ip).Ok?
    ensures UpdateAddress(t, a, ip).value == SetAddress(t, a, ip)
    ensures WellFormed(UpdateAddress(t, a, ip).value)
    ensures InOrder(UpdateAddress(t, a, ip).value) == ReplaceIp(InOrder(t), a, ip)
    ensures Entry(a, ip) in Entries(UpdateAddress(t, a, ip).value)
    ensures DistinctAddresses(t) ==> DistinctAddresses(UpdateAddress(t, a, ip).value)
  {
    UpdateAddressAccepted(t, a, ip);
    var u := SetAddress(t, a, ip);
    if t.Node? {
      AvlChildren(t);
    }
    RebalanceOfBalanced(u, RebalanceFuel);
    SetAddressKeepsOrder(t, a, ip);
    SetAddressEntries(t, a, ip);
    FindByAliasComplete(t, a);
    AddressCollision(t, ip);
    ReplacedRecords(t, u, a, ip);
  }

  // ---------------------------------------------------------------------
  // deleteAddress

  /** deleteAddress: the alias must be present and the answer to the
      confirmation prompt must be 'y'. */
  function DeleteAddress(t: Tree, a: string, confirm: char): (r: Result<Tree, Failure>)
    ensures r.Ok? ==> Entries(r.value) <= Entries(t)
  {
    if FindByAlias(t, a).None? then Err(AliasNotFound)
    else if confirm != 'y' then Err(Cancelled)
    else Ok(Delete(t, a))
  }

  lemma DeleteAddressKeepsDirectory(t: Tree, a: string, confirm: char)
    requires WellFormed(t)
    ensures DeleteAddress(t, a, confirm) == Err(AliasNotFound) <==> a !in Aliases(t)
    ensures DeleteAddress(t, a, confirm).Ok? ==>
      && WellFormed(DeleteAddress(t, a, confirm).value)
      && Aliases(DeleteAddress(t, a, confirm).value) == Aliases(t) - {a}
      && (DistinctAddresses(t) ==> DistinctAddresses(DeleteAddress(t, a, confirm).value))
  {
    FindByAliasComplete(t, a);
    DeleteKeepsAvl(t, a);
    DeleteEntries(t, a);
  }

  // ---------------------------------------------------------------------
  // parseFile

  /** One line of the input file once split into its two words: checked,
      then inserted without any duplicate check. */
  function IngestRecord(t: Tree, ip: string, alias: string): (r: Result<Tree, Failure>)
    ensures r.Ok? ==> alias in Aliases(r.value)
  {
    if !ValidateIP(ip) || !ValidateAlias(alias) || ContainsUppercase(alias) then Err(InvalidEntry)
    else Ok(Insert(t, alias, ip))
  }

  lemma IngestRecordKeepsDirectory(t: Tree, ip: string, alias: string)
    requires WellFormed(t)
    requires IngestRecord(t, ip, alias).Ok?
    ensures WellFormed(IngestRecord(t, ip, alias).value)
    ensures alias !in Aliases(t) ==>
      Entries(IngestRecord(t, ip, alias).value) == Entries(t) + {Entry(alias, ip)}
    ensures alias in Aliases(t) ==> IngestRecord(t, ip, alias).value == t
  {
    InsertKeepsAvl(t, alias, ip);
  }

  /** The whole file: rejected lines are skipped (and logged, in the C). */
  function Ingest(t: Tree, records: seq<Entry>): (r: Tree)
    ensures Aliases(t) <= Aliases(r)
    decreases |records|
  {
    if |records| == 0 then t
    else
      var next := IngestRecord(t, records[0].ip, records[0].alias);
      Ingest(if next.Ok? then next.value else t, records[1..])
  }

  lemma {:induction false} IngestKeepsDirectory(t: Tree, records: seq<Entry>)
    requires WellFormed(t)
    ensures WellFormed(Ingest(t, records))
    decreases |records|
  {
    if |records| > 0 {
      var next := IngestRecord(t, records[0].ip, records[0].alias);
      if next.Ok? {
        IngestRecordKeepsDirectory(t, records[0].ip, records[0].alias);
        IngestKeepsDirectory(next.value, records[1..]);
      } else {
        IngestKeepsDirectory(t, records[1..]);
      }
    }
  }

  /** The loader never checks addresses, so two lines with the same address
      under different aliases both end up in the directory. */
  lemma IngestAllowsDuplicateAddress(t: Tree, ip: string, a: string, b: string)
    requires WellFormed(t) && a !in Aliases(t) && b !in Aliases(t) && a != b
    requires IngestRecord(t, ip, a).Ok? && IngestRecord(t, ip, b).Ok?
    ensures IngestRecord(IngestRecord(t, ip, a).value, ip, b).Ok?
    ensures !DistinctAddresses(IngestRecord(IngestRecord(t, ip, a).value, ip, b).value)
  {
    var r1 := IngestRecord(t, ip, a).value;
    IngestRecordKeepsDirectory(t, ip, a);
    assert b !in Aliases(r1);
    IngestRecordKeepsDirectory(r1, ip, b);
    var r2 := IngestRecord(r1, ip, b).value;
    assert Entry(a, ip) in Entries(r2) && Entry(b, ip) in Entries(r2);
  }

  // ---------------------------------------------------------------------
  // displayAliasesForLocation

  /** Room in the caller's `prefix` buffer: seven characters and the NUL. */
  const LocationInputSize: nat := 8

  /** The location listing as written: the truncating prefix check, then the
      textual scan, which lists matches in pre-order.  An empty listing is
      the "No matching aliases found." case. */
  function LocationQuery(t: Tree, p: string): (r: Result<seq<Entry>, Failure>)
    ensures r == Err(InvalidPrefix) <==> !IsValidIPv4PrefixAsWritten(p)
    ensures r.Ok? ==> r.value == SelectPrefix(PreOrder(t), p)
    ensures r.Ok? ==> forall e :: e in r.value <==> e in Entries(t) && p <= e.ip
  {
    if !IsValidIPv4PrefixAsWritten(p) then Err(InvalidPrefix)
    else
      PrefixScanIsPreOrder(t, p);
      Ok(PrefixScan(t, p))
  }

  /** The location listing as intended: two octets, then every record whose
      first two octets are those. */
  function LocationQueryIntended(t: Tree, p: string): (r: Result<seq<Entry>, Failure>)
    ensures r.Ok? ==> forall e :: e in r.value ==> e in Entries(t)
  {
    if !IsValidIPv4Prefix(p) then Err(InvalidPrefix) else Ok(OctetPrefixScan(t, p))
  }

  /** For a prefix the input buffer holds, both versions accept the same
      prefixes, but the listing as written also reports addresses whose
      second octet only starts with the typed one. */
  lemma LocationQueryOverMatches(t: Tree, a: string, x: string, y: string, z: string, w: string)
    requires IsOctetText(x) && IsOctetText(y) && |x + "." + y| < LocationInputSize
    requires Entry(a, x + "." + y + z + w) in Entries(t)
    requires |z| > 0 && AllDigits(z)
    ensures LocationQuery(t, x + "." + y).Ok? && LocationQueryIntended(t, x + "." + y).Ok?
    ensures Entry(a, x + "." + y + z + w) in LocationQuery(t, x + "." + y).value
    ensures Entry(a, x + "." + y + z + w) !in LocationQueryIntended(t, x + "." + y).value
  {
    PrefixComplete(x, y);
    PrefixVersionsAgreeOnShortInput(x + "." + y);
    PrefixScanOverMatches(t, a, x, y, z, w);
  }

  /** Against a directory of valid addresses the intended listing holds
      exactly the records in that location. */
  lemma LocationQueryMatchesOctets(t: Tree, x: string, y: string)
    requires WellFormed(t)
    requires LocationQueryIntended(t, x + "." + y).Ok?
    requires AllDigits(x) && AllDigits(y)
    ensures forall e :: e in LocationQueryIntended(t, x + "." + y).value <==>
      e in Entries(t) && exists ds :: IsDottedQuad(e.ip, ds) && ds[0] == x && ds[1] == y
  {
    var r := LocationQueryIntended(t, x + "." + y).value;
    forall e ensures e in r <==>
      e in Entries(t) && exists ds :: IsDottedQuad(e.ip, ds) && ds[0] == x && ds[1] == y
    {
      if e in Entries(t) {
        ValidateIPSound(e.ip);
        var ds :| IsDottedQuad(e.ip, ds);
        OctetPrefixMatchesFirstOctets(e.ip, ds, x, y);
        if exists ds' :: IsDottedQuad(e.ip, ds') && ds'[0] == x && ds'[1] == y {
          var ds' :| IsDottedQuad(e.ip, ds') && ds'[0] == x && ds'[1] == y;
          OctetPrefixMatchesFirstOctets(e.ip, ds', x, y);
        }
      }
    }
  }

  /** The intended listing refuses exactly the prefixes that are not two
      octets joined by a dot. */
  lemma LocationQueryPrefixShape(t: Tree, p: string)
    ensures LocationQueryIntended(t, p) == Err(InvalidPrefix) <==> !IsValidIPv4Prefix(p)
    ensures LocationQueryIntended(t, p).Ok? ==>
      exists x, y :: IsOctetText(x) && IsOctetText(y) && p == x + "." + y
  {
    if IsValidIPv4Prefix(p) {
      PrefixSound(p);
    }
  }
}
