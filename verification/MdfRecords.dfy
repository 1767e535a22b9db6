/** The data records that dse/clib/mdf/mdf.c writes behind the start blocks, in cells of eight bytes, and a reader
    that knows only what the channel group blocks say: the record ids and how long the data of a record is. */
module MdfRecords {
  import opened Options
  import opened Words
  import opened MdfLayout

  /** A sample of all groups: the timestamp and the scalars of each, as the bits of doubles. */
  datatype Sample = Sample(timestamp: u64, scalars: seq<seq<u64>>)

  /** A record: the group it belongs to, and its timestamp and scalars. */
  datatype Record = Record(group: nat, values: seq<u64>)

  /** The arrays of a sample are as long as their groups have signals. */
  predicate Fits(groups: seq<Group>, s: Sample) {
    |s.scalars| == |groups| && forall g :: 0 <= g < |groups| ==> |s.scalars[g]| == |groups[g].signals|
  }

  /** cg_data_bytes: taken from the first group of the list for every group. */
  function DataBytes(groups: seq<Group>, g: nat): nat
    requires g < |groups|
  {
    8 * (|groups[0].signals| + 1)
  }

  /** The record ids that mdf_create gives: a hash of the name of each group. */
  function RecordIds(groups: seq<Group>, uid: string -> u64): (ids: seq<u64>)
    ensures |ids| == |groups| && forall g :: 0 <= g < |ids| ==> ids[g] == uid(groups[g].name)
  {
    if groups == [] then [] else [uid(groups[0].name)] + RecordIds(groups[1..], uid)
  }

  // ---- what is written ----

  /** write_data_record. */
  function RecordCells(ids: seq<u64>, r: Record): seq<u64>
    requires r.group < |ids|
  {
    [ids[r.group]] + r.values
  }

  function Cells(ids: seq<u64>, rs: seq<Record>): seq<u64>
    requires forall r :: r in rs ==> r.group < |ids|
  {
    if rs == [] then [] else RecordCells(ids, rs[0]) + Cells(ids, rs[1..])
  }

  function GroupRecord(s: Sample, g: nat): Record
    requires g < |s.scalars|
  {
    Record(g, [s.timestamp] + s.scalars[g])
  }

  /** The records of a sample, for the groups from g on. */
  function SampleRecords(s: Sample, g: nat): (rs: seq<Record>)
    ensures forall r :: r in rs ==> g <= r.group < |s.scalars|
    decreases |s.scalars| - g
  {
    if g >= |s.scalars| then [] else [GroupRecord(s, g)] + SampleRecords(s, g + 1)
  }

  /** The records of a run of mdf_write_records. */
  function Records(samples: seq<Sample>): seq<Record> {
    if samples == [] then [] else SampleRecords(samples[0], 0) + Records(samples[1..])
  }

  // ---- the reader ----

  /** The first group with this record id. */
  function GroupWith(ids: seq<u64>, id: u64): (g: Option<nat>)
    ensures g.Some? ==> g.value < |ids| && ids[g.value] == id && id !in ids[..g.value]
    ensures g.None? ==> id !in ids
  {
    if ids == [] then None
    else if ids[0] == id then Some(0)
    else match GroupWith(ids[1..], id) case Some(g) => Some(g + 1) case None => None
  }

  /** Record by record: the id, then as many cells as the group's data bytes say. */
  function ReadRecords(ids: seq<u64>, dataBytes: seq<nat>, cells: seq<u64>): Option<seq<Record>>
    requires |dataBytes| == |ids|
    decreases |cells|
  {
    if cells == [] then Some([])
    else
      var g := GroupWith(ids, cells[0]);
      if g.None? then None
      else
        var n := dataBytes[g.value] / 8;
        if 1 + n > |cells| then None
        else
          var rest := ReadRecords(ids, dataBytes, cells[1 + n..]);
          if rest.None? then None else Some([Record(g.value, cells[1..1 + n])] + rest.value)
  }

  // ---- when they agree ----

  predicate Recognised(ids: seq<u64>, n: nat, r: Record)
    requires r.group < |ids|
  {
    |r.values| == n && GroupWith(ids, ids[r.group]) == Some(r.group)
  }

  /** Records are read back as they were written exactly if each is as long as the reader is told and is the first
      group with its id. */
  lemma {:induction false} RecordsComeBack(ids: seq<u64>, dataBytes: seq<nat>, n: nat, rs: seq<Record>)
    requires |dataBytes| == |ids| && (forall g :: 0 <= g < |ids| ==> dataBytes[g] == 8 * n)
    requires forall r :: r in rs ==> r.group < |ids|
    ensures ReadRecords(ids, dataBytes, Cells(ids, rs)) == Some(rs) <==> forall r :: r in rs ==> Recognised(ids, n, r)
    decreases |rs|
  {
    if rs != [] {
      var r, rest := rs[0], rs[1..];
      var cells := Cells(ids, rs);
      assert rs == [r] + rest;
      assert cells == [ids[r.group]] + r.values + Cells(ids, rest);
      var g := GroupWith(ids, ids[r.group]);
      if Recognised(ids, n, r) {
        assert cells[1..1 + n] == r.values && cells[1 + n..] == Cells(ids, rest);
        RecordsComeBack(ids, dataBytes, n, rest);
        var more := ReadRecords(ids, dataBytes, Cells(ids, rest));
        assert more.Some? ==> ([r] + more.value)[1..] == more.value;
        assert forall x :: x in rs <==> x == r || x in rest;
      } else {
        assert r in rs;
        assert cells[0] == ids[r.group];
      }
    }
  }

  lemma {:induction false} SampleRecordAt(s: Sample, g: nat, k: nat)
    requires g <= k < |s.scalars|
    ensures GroupRecord(s, k) in SampleRecords(s, g)
    decreases k - g
  {
    if g < k {
      SampleRecordAt(s, g + 1, k);
    }
  }

  lemma {:induction false} RecordOfSample(s: Sample, g: nat, r: Record)
    requires r in SampleRecords(s, g)
    ensures r.group < |s.scalars| && r == GroupRecord(s, r.group)
    decreases |s.scalars| - g
  {
    if r != GroupRecord(s, g) {
      RecordOfSample(s, g + 1, r);
    }
  }

  lemma {:induction false} RecordsOfRun(groups: seq<Group>, samples: seq<Sample>, r: Record)
    requires (forall s :: s in samples ==> Fits(groups, s)) && r in Records(samples)
    ensures r.group < |groups| && |r.values| == |groups[r.group].signals| + 1
    decreases |samples|
  {
    if r in SampleRecords(samples[0], 0) {
      assert samples[0] in samples;
      RecordOfSample(samples[0], 0, r);
    } else {
      RecordsOfRun(groups, samples[1..], r);
    }
  }

  ghost predicate AllDiffer(ids: seq<u64>) {
    forall i, j :: 0 <= i < j < |ids| ==> ids[i] != ids[j]
  }

  ghost predicate SameCounts(groups: seq<Group>) {
    forall g :: 0 <= g < |groups| ==> |groups[g].signals| == |groups[0].signals|
  }

  lemma FirstWithItsId(ids: seq<u64>)
    ensures AllDiffer(ids) <==> forall g :: 0 <= g < |ids| ==> GroupWith(ids, ids[g]) == Some(g)
  {
    if AllDiffer(ids) {
      forall g | 0 <= g < |ids| ensures GroupWith(ids, ids[g]) == Some(g) {
        assert ids[g] in ids;
      }
    }
    if forall g :: 0 <= g < |ids| ==> GroupWith(ids, ids[g]) == Some(g) {
      forall i, j | 0 <= i < j < |ids| ensures ids[i] != ids[j] {
        assert GroupWith(ids, ids[j]) == Some(j);
        assert ids[i] == ids[..j][i];
      }
    }
  }

  /** A run of at least one sample writes a record of every group, of the length of the group. */
  lemma EveryGroupIsWritten(groups: seq<Group>, samples: seq<Sample>, g: nat)
    requires samples != [] && (forall s :: s in samples ==> Fits(groups, s)) && g < |groups|
    ensures exists r :: r in Records(samples) && r.group == g && |r.values| == |groups[g].signals| + 1
  {
    assert samples[0] in samples;
    SampleRecordAt(samples[0], 0, g);
    assert GroupRecord(samples[0], g) in Records(samples);
  }

  /** Every record of a run, of at least one sample, is read back with its group, its timestamp and its values exactly
      if all groups have as many signals as the first one and no two have the same record id. */
  lemma RunComesBack(groups: seq<Group>, ids: seq<u64>, dataBytes: seq<nat>, samples: seq<Sample>)
    requires |ids| == |dataBytes| == |groups| && samples != [] && (forall s :: s in samples ==> Fits(groups, s))
    requires forall g :: 0 <= g < |groups| ==> dataBytes[g] == DataBytes(groups, g)
    ensures forall r :: r in Records(samples) ==> r.group < |ids|
    ensures ReadRecords(ids, dataBytes, Cells(ids, Records(samples))) == Some(Records(samples))
            <==> SameCounts(groups) && AllDiffer(ids)
  {
    var rs := Records(samples);
    forall r | r in rs ensures r.group < |groups| && |r.values| == |groups[r.group].signals| + 1 {
      RecordsOfRun(groups, samples, r);
    }
    var n := if groups == [] then 0 else |groups[0].signals| + 1;
    RecordsComeBack(ids, dataBytes, n, rs);
    FirstWithItsId(ids);
    AllRecognised(groups, ids, n, samples);
  }

  lemma AllRecognised(groups: seq<Group>, ids: seq<u64>, n: nat, samples: seq<Sample>)
    requires |ids| == |groups| && samples != [] && (forall s :: s in samples ==> Fits(groups, s))
    requires groups != [] ==> n == |groups[0].signals| + 1
    requires forall r :: r in Records(samples) ==> r.group < |groups| && |r.values| == |groups[r.group].signals| + 1
    ensures (forall r :: r in Records(samples) ==> Recognised(ids, n, r))
            <==> SameCounts(groups) && forall g :: 0 <= g < |ids| ==> GroupWith(ids, ids[g]) == Some(g)
  {
    if forall r :: r in Records(samples) ==> Recognised(ids, n, r) {
      forall g | 0 <= g < |groups| ensures |groups[g].signals| + 1 == n && GroupWith(ids, ids[g]) == Some(g) {
        EveryGroupIsWritten(groups, samples, g);
        var r :| r in Records(samples) && r.group == g && |r.values| == |groups[g].signals| + 1;
        assert Recognised(ids, n, r);
      }
    }
  }

  /** Two groups of which the second has one more signal: already the first sample is not read back. */
  lemma SecondGroupMisread(ids: seq<u64>, t: u64, a: u64, b: u64, c: u64)
    requires |ids| == 2
    ensures var groups := [Group("g0", ["x"]), Group("g1", ["y", "z"])];
            var samples := [Sample(t, [[a], [b, c]])];
            && (forall r :: r in Records(samples) ==> r.group < |ids|)
            && ReadRecords(ids, [16, 16], Cells(ids, Records(samples))) != Some(Records(samples))
  {
    var groups := [Group("g0", ["x"]), Group("g1", ["y", "z"])];
    var samples := [Sample(t, [[a], [b, c]])];
    assert |groups[1].signals| != |groups[0].signals|;
    assert !SameCounts(groups);
    RunComesBack(groups, ids, [16, 16], samples);
  }
}
