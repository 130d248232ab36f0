/**
  The UN/LOCODE gazetteer: the records of the bundled reference dataset, what
  each record contributes to the lookup table, and the table the loader builds
  from a whole dataset.
 */
module Gazetteer {
  import opened Options
  import opened Coordinates

  /** One element of the reference dataset; None stands for a field the element lacks. */
  datatype Record = Record(country: Option<string>, location: Option<string>, coordinates: Option<string>, status: Option<string>)

  /** A table entry: the decoded position in hundredths and the record's status flag. */
  datatype Entry = Entry(latitude: int, longitude: int, status: string)

  /**
    The key and entry one record contributes to the table, or None when the
    loader skips it: a missing field, or coordinates that do not decode.
    The coordinates are read with the intended hemisphere signs
    (`DecodeCoordinates`); the shipped loader stores their absolute values
    (`DecodeCoordinatesAsWritten`).
   */
  function DecodeRecord(r: Record): (res: Option<(string, Entry)>)
    ensures res.Some? <==>
      && r.country.Some? && r.location.Some? && r.coordinates.Some? && r.status.Some?
      && DecodeCoordinates(r.coordinates.value).Some?
    ensures res.Some? ==> res.value.0 == r.country.value + r.location.value && res.value.1.status == r.status.value
    ensures res.Some? ==>
      && res.value.1.latitude == DecodeCoordinates(r.coordinates.value).value.latitude
      && res.value.1.longitude == DecodeCoordinates(r.coordinates.value).value.longitude
    ensures res.Some? ==> InRange(Position(res.value.1.latitude, res.value.1.longitude))
  {
    if r.country.None? || r.location.None? || r.coordinates.None? || r.status.None? then None
    else
      match DecodeCoordinates(r.coordinates.value)
      case None => None
      case Some(p) => Some((r.country.value + r.location.value, Entry(p.latitude, p.longitude, r.status.value)))
  }

  /** `f` applied to every element of `s`, in order. */
  function MapSeq<A, B>(f: A -> B, s: seq<A>): (r: seq<B>)
    ensures |r| == |s| && forall i :: 0 <= i < |s| ==> r[i] == f(s[i])
  {
    seq(|s|, i requires 0 <= i < |s| => f(s[i]))
  }

  lemma MapSeqAppend<A, B>(f: A -> B, a: seq<A>, b: seq<A>)
    ensures MapSeq(f, a + b) == MapSeq(f, a) + MapSeq(f, b)
  {
    var ab := a + b;
    forall i | 0 <= i < |ab|
      ensures MapSeq(f, ab)[i] == (MapSeq(f, a) + MapSeq(f, b))[i]
    {
      if i < |a| {
        assert ab[i] == a[i];
      } else {
        assert ab[i] == b[i - |a|];
      }
    }
  }

  /** The key and entry of every record, in dataset order; None where the loader skips the record. */
  function Contributions(records: seq<Record>): (c: seq<Option<(string, Entry)>>)
    ensures |c| == |records| && forall i :: 0 <= i < |records| ==> c[i] == DecodeRecord(records[i])
  {
    MapSeq(DecodeRecord, records)
  }

  /** The map after putting the contributions in order: a skipped record changes nothing, a later key overwrites an earlier one. */
  function PutAll(contributions: seq<Option<(string, Entry)>>): map<string, Entry>
  {
    if contributions == [] then map[]
    else
      var table := PutAll(contributions[..|contributions| - 1]);
      match contributions[|contributions| - 1]
      case None => table
      case Some((k, e)) => table[k := e]
  }

  /** The table the loader builds from a readable dataset. */
  function BuildTable(records: seq<Record>): map<string, Entry>
  {
    PutAll(Contributions(records))
  }

  /** Reading one more record puts its contribution, if any, into the table of the records before it. */
  lemma BuildTableStep(records: seq<Record>, i: nat)
    requires i < |records|
    ensures DecodeRecord(records[i]).None? ==> BuildTable(records[..i + 1]) == BuildTable(records[..i])
    ensures DecodeRecord(records[i]).Some? ==>
      BuildTable(records[..i + 1]) == BuildTable(records[..i])[DecodeRecord(records[i]).value.0 := DecodeRecord(records[i]).value.1]
  {
    assert records[..i + 1] == records[..i] + [records[i]];
    ContributionsAppend(records[..i], [records[i]]);
    assert Contributions([records[i]]) == [DecodeRecord(records[i])];
    PutAllSnoc(Contributions(records[..i]), DecodeRecord(records[i]));
  }

  lemma PutAllSnoc(contributions: seq<Option<(string, Entry)>>, last: Option<(string, Entry)>)
    ensures last.None? ==> PutAll(contributions + [last]) == PutAll(contributions)
    ensures last.Some? ==> PutAll(contributions + [last]) == PutAll(contributions)[last.value.0 := last.value.1]
  {
    assert (contributions + [last])[..|contributions|] == contributions;
  }

  /** Contribution `c` is stored, and stored under key `k`. */
  predicate StoredUnder(c: Option<(string, Entry)>, k: string) {
    c.Some? && c.value.0 == k
  }

  /** The map holds a key exactly when some contribution is stored under it. */
  lemma {:induction false} PutAllKeys(contributions: seq<Option<(string, Entry)>>, k: string)
    ensures k in PutAll(contributions) <==> exists i :: 0 <= i < |contributions| && StoredUnder(contributions[i], k)
  {
    if contributions != [] {
      var n := |contributions| - 1;
      var prefix := contributions[..n];
      PutAllKeys(prefix, k);
      if k in PutAll(contributions) && !StoredUnder(contributions[n], k) {
        var i :| 0 <= i < |prefix| && StoredUnder(prefix[i], k);
        assert contributions[i] == prefix[i];
      }
      if exists i :: 0 <= i < |contributions| && StoredUnder(contributions[i], k) {
        var i :| 0 <= i < |contributions| && StoredUnder(contributions[i], k);
        if i < n {
          assert prefix[i] == contributions[i];
        }
      }
    }
  }

  /** The entry under a key is the one of the last contribution stored under it. */
  lemma {:induction false} PutAllLastWins(contributions: seq<Option<(string, Entry)>>, i: nat)
    requires i < |contributions| && contributions[i].Some?
    requires forall j :: i < j < |contributions| ==> !StoredUnder(contributions[j], contributions[i].value.0)
    ensures contributions[i].value.0 in PutAll(contributions)
    ensures PutAll(contributions)[contributions[i].value.0] == contributions[i].value.1
  {
    var n := |contributions| - 1;
    if i < n {
      var prefix := contributions[..n];
      assert prefix[i] == contributions[i];
      forall j | i < j < |prefix| ensures !StoredUnder(prefix[j], prefix[i].value.0) {
        assert prefix[j] == contributions[j];
      }
      PutAllLastWins(prefix, i);
    }
  }

  /** The table holds a key exactly when some record of the dataset decodes to that key. */
  lemma BuildTableKeys(records: seq<Record>, k: string)
    ensures k in BuildTable(records) <==> exists i :: 0 <= i < |records| && StoredUnder(DecodeRecord(records[i]), k)
  {
    var c := Contributions(records);
    PutAllKeys(c, k);
    if exists i :: 0 <= i < |c| && StoredUnder(c[i], k) {
      var i :| 0 <= i < |c| && StoredUnder(c[i], k);
      assert StoredUnder(DecodeRecord(records[i]), k);
    }
  }

  /** The entry under a key is the one decoded from the last record with that key. */
  lemma BuildTableLastWins(records: seq<Record>, i: nat)
    requires i < |records| && DecodeRecord(records[i]).Some?
    requires forall j :: i < j < |records| ==> !StoredUnder(DecodeRecord(records[j]), DecodeRecord(records[i]).value.0)
    ensures DecodeRecord(records[i]).value.0 in BuildTable(records)
    ensures BuildTable(records)[DecodeRecord(records[i]).value.0] == DecodeRecord(records[i]).value.1
  {
    PutAllLastWins(Contributions(records), i);
  }

  /** A record the loader skips can be removed from the dataset without changing the table. */
  lemma SkippedRecordIsInvisible(before: seq<Record>, r: Record, after: seq<Record>)
    requires DecodeRecord(r).None?
    ensures BuildTable(before + [r] + after) == BuildTable(before + after)
  {
    ContributionsAppend(before + [r], after);
    ContributionsAppend(before, [r]);
    ContributionsAppend(before, after);
    assert Contributions([r]) == [None];
    PutAllSkipsNone(Contributions(before), Contributions(after));
  }

  lemma ContributionsAppend(a: seq<Record>, b: seq<Record>)
    ensures Contributions(a + b) == Contributions(a) + Contributions(b)
  {
    MapSeqAppend(DecodeRecord, a, b);
  }

  lemma {:induction false} PutAllSkipsNone(before: seq<Option<(string, Entry)>>, after: seq<Option<(string, Entry)>>)
    ensures PutAll(before + [None] + after) == PutAll(before + after)
  {
    if after == [] {
      assert before + [None] + after == before + [None];
      assert (before + [None])[..|before|] == before;
      assert before + after == before;
    } else {
      var n := |after| - 1;
      PutAllSkipsNone(before, after[..n]);
      var s1 := before + [None] + after;
      var s2 := before + after;
      assert s1[..|s1| - 1] == before + [None] + after[..n];
      assert s2[..|s2| - 1] == before + after[..n];
      assert s1[|s1| - 1] == after[n] == s2[|s2| - 1];
    }
  }

  /** Whatever the dataset, every entry of the table lies in the range the coordinate fields can express. */
  lemma BuildTableInRange(records: seq<Record>, k: string)
    requires k in BuildTable(records)
    ensures InRange(Position(BuildTable(records)[k].latitude, BuildTable(records)[k].longitude))
  {
    var c := Contributions(records);
    PutAllKeys(c, k);
    var i :| 0 <= i < |c| && StoredUnder(c[i], k);
    var last := LastStored(c, k, i);
    PutAllLastWins(c, last);
    assert c[last] == DecodeRecord(records[last]);
  }

  /** The index of the last contribution stored under `k`, given one that is. */
  function LastStored(contributions: seq<Option<(string, Entry)>>, k: string, i: nat): (last: nat)
    requires i < |contributions| && StoredUnder(contributions[i], k)
    ensures i <= last < |contributions| && StoredUnder(contributions[last], k)
    ensures forall j :: last < j < |contributions| ==> !StoredUnder(contributions[j], k)
    decreases |contributions| - i
  {
    if exists j :: i < j < |contributions| && StoredUnder(contributions[j], k) then
      var j :| i < j < |contributions| && StoredUnder(contributions[j], k);
      LastStored(contributions, k, j)
    else i
  }

  /** The table the loader leaves behind: built from the records, or empty when the dataset cannot be read. */
  function LoadedTable(source: Option<seq<Record>>): map<string, Entry>
  {
    match source
    case None => map[]
    case Some(records) => BuildTable(records)
  }
}
