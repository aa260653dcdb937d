/**
 * Partitioning records by locus key (seqcap_align_2.py, `build_locus_dict`,
 * lines 120-128, driven by the read loop of lines 176-182).
 */
module Partition {
  import opened Wrappers
  import opened LocusKeys

  /** A FASTA record as the reader yields it. */
  datatype Record = Record(identifier: string, sequence: string)

  /** Locus key to the records of that locus, in read order. */
  type Loci = map<string, seq<Record>>

  /** A record enters the partition unless ambiguous bases are refused and its sequence holds an upper-case 'N'. */
  predicate Admitted(record: Record, ambiguous: bool)
  {
    ambiguous || 'N' !in record.sequence
  }

  /** The list a `defaultdict(list)` hands out for `locus`: the stored one, or a fresh empty one. */
  function Lookup(loci: Loci, locus: string): seq<Record>
  {
    if locus in loci then loci[locus] else []
  }

  /** The effect of one `build_locus_dict` call on the dictionary's contents. */
  function AddRecord(loci: Loci, locus: string, record: Record, ambiguous: bool): (r: Loci)
    ensures !Admitted(record, ambiguous) ==> r == loci
    ensures Admitted(record, ambiguous) ==>
      r.Keys == loci.Keys + {locus} && r[locus] == Lookup(loci, locus) + [record]
    ensures forall k :: k in loci && k != locus ==> k in r && r[k] == loci[k]
  {
    if Admitted(record, ambiguous) then loci[locus := Lookup(loci, locus) + [record]] else loci
  }

  /** The `defaultdict(list)` of lines 175-195, updated in place. */
  class LocusDict {
    var groups: Loci

    constructor ()
      ensures groups == map[]
    {
      groups := map[];
    }

    /** `loci[locus].append(record)`: creates the list on first use. */
    method Append(locus: string, record: Record)
      modifies this
      ensures groups == old(groups)[locus := Lookup(old(groups), locus) + [record]]
    {
      groups := groups[locus := Lookup(groups, locus) + [record]];
    }

    /** `del loci[locus]`. */
    method Delete(locus: string)
      requires locus in groups
      modifies this
      ensures groups == old(groups) - {locus}
    {
      groups := groups - {locus};
    }
  }

  /**
   * `build_locus_dict`: appends `record` to its locus's list unless it is
   * skipped for ambiguous bases, and hands back the same dictionary.
   */
  method BuildLocusDict(loci: LocusDict, locus: string, record: Record, ambiguous: bool) returns (r: LocusDict)
    modifies loci
    ensures r == loci
    ensures loci.groups == AddRecord(old(loci.groups), locus, record, ambiguous)
  {
    if !ambiguous {
      if 'N' !in record.sequence {
        loci.Append(locus, record);
      }
      // otherwise the record is skipped and only reported on stdout
    } else {
      loci.Append(locus, record);
    }
    r := loci;
  }

  /** Every identifier yields a locus key, so the read loop raises no IndexError. */
  predicate AllKeyed(records: seq<Record>, faircloth: bool)
  {
    forall i :: 0 <= i < |records| ==> LocusKey(records[i].identifier, faircloth).Some?
  }

  /**
   * The dictionary after the read loop of lines 176-182 has consumed
   * `records`. A key is only created by an append, so no list is empty.
   */
  function PartitionOf(records: seq<Record>, faircloth: bool, ambiguous: bool): (loci: Loci)
    requires AllKeyed(records, faircloth)
    ensures forall k :: k in loci ==> loci[k] != []
    decreases |records|
  {
    if records == [] then map[]
    else
      var n := |records| - 1;
      AddRecord(PartitionOf(records[..n], faircloth, ambiguous),
                LocusKey(records[n].identifier, faircloth).value, records[n], ambiguous)
  }

  /** The part one record contributes to the group of `locus`. */
  function Piece(record: Record, locus: string, faircloth: bool, ambiguous: bool): seq<Record>
  {
    if Admitted(record, ambiguous) && LocusKey(record.identifier, faircloth) == Some(locus) then [record] else []
  }

  /** Reference definition: the admitted records whose key is `locus`, in input order, duplicates kept. */
  function Group(records: seq<Record>, locus: string, faircloth: bool, ambiguous: bool): seq<Record>
    decreases |records|
  {
    if records == [] then []
    else Piece(records[0], locus, faircloth, ambiguous) + Group(records[1..], locus, faircloth, ambiguous)
  }

  /** Group read from the back: the last record contributes at the end. */
  lemma {:induction false} GroupSnoc(records: seq<Record>, locus: string, faircloth: bool, ambiguous: bool)
    requires records != []
    ensures var n := |records| - 1;
      Group(records, locus, faircloth, ambiguous)
      == Group(records[..n], locus, faircloth, ambiguous) + Piece(records[n], locus, faircloth, ambiguous)
  {
    var n := |records| - 1;
    if n > 0 {
      var tail := records[1..];
      GroupSnoc(tail, locus, faircloth, ambiguous);
      assert tail[..n - 1] == records[..n][1..];
      assert tail[n - 1] == records[n];
      assert records[..n][0] == records[0];
      calc {
        Group(records, locus, faircloth, ambiguous);
        Piece(records[0], locus, faircloth, ambiguous) + Group(tail, locus, faircloth, ambiguous);
        Piece(records[0], locus, faircloth, ambiguous)
          + (Group(records[..n][1..], locus, faircloth, ambiguous) + Piece(records[n], locus, faircloth, ambiguous));
        (Piece(records[..n][0], locus, faircloth, ambiguous) + Group(records[..n][1..], locus, faircloth, ambiguous))
          + Piece(records[n], locus, faircloth, ambiguous);
        Group(records[..n], locus, faircloth, ambiguous) + Piece(records[n], locus, faircloth, ambiguous);
      }
    } else {
      assert records[..n] == [];
      assert records[1..] == [];
    }
  }

  /**
   * The partition holds a locus exactly when some admitted record has that
   * key, and its list is those records in input order.
   */
  lemma {:induction false} PartitionGroups(records: seq<Record>, faircloth: bool, ambiguous: bool)
    requires AllKeyed(records, faircloth)
    ensures var loci := PartitionOf(records, faircloth, ambiguous);
      forall k :: (k in loci <==> Group(records, k, faircloth, ambiguous) != [])
               && (k in loci ==> loci[k] == Group(records, k, faircloth, ambiguous))
  {
    if records != [] {
      var n := |records| - 1;
      assert AllKeyed(records[..n], faircloth);
      PartitionGroups(records[..n], faircloth, ambiguous);
      forall k
        ensures var loci := PartitionOf(records, faircloth, ambiguous);
          (k in loci <==> Group(records, k, faircloth, ambiguous) != [])
          && (k in loci ==> loci[k] == Group(records, k, faircloth, ambiguous))
      {
        GroupSnoc(records, k, faircloth, ambiguous);
      }
    }
  }

  /** Membership in a group: admitted input records carrying that key, nothing else. */
  lemma {:induction false} GroupMembers(records: seq<Record>, locus: string, faircloth: bool, ambiguous: bool)
    ensures forall r :: r in Group(records, locus, faircloth, ambiguous) <==>
      r in records && Admitted(r, ambiguous) && LocusKey(r.identifier, faircloth) == Some(locus)
  {
    if records != [] {
      GroupMembers(records[1..], locus, faircloth, ambiguous);
      assert records == [records[0]] + records[1..];
    }
  }

  /**
   * A record with an ambiguous base is in the partition if and only if
   * ambiguous bases are allowed: an admitted record sits in its own locus's
   * list, a skipped one in no list at all.
   */
  lemma RecordPresence(records: seq<Record>, i: nat, faircloth: bool, ambiguous: bool)
    requires AllKeyed(records, faircloth)
    requires i < |records|
    ensures var loci := PartitionOf(records, faircloth, ambiguous);
      var key := LocusKey(records[i].identifier, faircloth).value;
      (Admitted(records[i], ambiguous) ==> key in loci && records[i] in loci[key])
      && (!Admitted(records[i], ambiguous) ==> forall k :: k in loci ==> records[i] !in loci[k])
  {
    var loci := PartitionOf(records, faircloth, ambiguous);
    PartitionGroups(records, faircloth, ambiguous);
    var key := LocusKey(records[i].identifier, faircloth).value;
    GroupMembers(records, key, faircloth, ambiguous);
    forall k | k in loci
      ensures Admitted(records[i], ambiguous) || records[i] !in loci[k]
    {
      GroupMembers(records, k, faircloth, ambiguous);
    }
  }
}
