/** The MdfDesc object of dse/clib/mdf/mdf.c: the stream offset advances with every block written. */
module MdfWriter {
  import opened Options
  import opened Words
  import opened MdfLayout
  import opened MdfRecords

  class MdfDesc {
    const channels: seq<Group>
    const recordIds: seq<u64>
    var file: seq<Block>
    var offset: nat
    /** The data records behind the blocks, in cells of eight bytes. */
    var cells: seq<u64>

    /** mdf_create on an empty stream; uid stands for generate_uid_hash. */
    constructor (channels: seq<Group>, uid: string -> u64)
      ensures this.channels == channels && file == [] && offset == 0 && cells == []
      ensures recordIds == RecordIds(channels, uid)
    {
      this.channels := channels;
      recordIds := RecordIds(channels, uid);
      file, offset, cells := [], 0, [];
    }

    /** calculate_dg_first: everything that will be written before the data group, added up in advance. */
    method CalculateDgFirst() returns (dgFirst: nat)
      ensures dgFirst == DgFirst(channels)
    {
      dgFirst := ID_SIZE + HD_SIZE + FH_SIZE + MD_SIZE + MD_ARRAY;
      var cgIdx := 0;
      while cgIdx < |channels|
        invariant 0 <= cgIdx <= |channels|
        invariant dgFirst + GroupsSize(channels[cgIdx..]) == DgFirst(channels)
      {
        var cn := CalculateSignals(cgIdx);
        dgFirst := dgFirst + (CN_SIZE + (8 + TX_SIZE)) + cn;
        dgFirst := dgFirst + CG_SIZE + (TX_SIZE + TextSize(channels[cgIdx].name));
        assert channels[cgIdx..][1..] == channels[cgIdx + 1..];
        cgIdx := cgIdx + 1;
      }
    }

    /** The inner loop of the two calculations: CN and TX blocks of the signals of one group. */
    method CalculateSignals(index: nat) returns (size: nat)
      requires index < |channels|
      ensures size == SignalsSize(channels[index].signals)
    {
      var signals := channels[index].signals;
      var cnSize, txCnSize, idx := 0, 0, 0;
      while idx < |signals|
        invariant 0 <= idx <= |signals|
        invariant cnSize + txCnSize + SignalsSize(signals[idx..]) == SignalsSize(signals)
      {
        cnSize := cnSize + CN_SIZE;
        txCnSize := txCnSize + TX_SIZE + TextSize(signals[idx]);
        assert signals[idx..][1..] == signals[idx + 1..];
        idx := idx + 1;
      }
      size := cnSize + txCnSize;
    }

    /** calculate_cg_next_offset. */
    method CalculateCgNextOffset(index: nat) returns (next: nat)
      requires index + 1 < |channels|
      ensures next == CgNextOffset(channels[index..])
    {
      next := CG_SIZE + TextSize(channels[index].name) + TX_SIZE + (CN_SIZE + (8 + TX_SIZE));
      var cn := CalculateSignals(index + 1);
      next := next + cn;
    }

    /** _fwrite_block and _fwrite_block_with_data. */
    method Write(b: Block)
      modifies this`file, this`offset
      ensures file == old(file) + [b] && offset == old(offset) + Size(b)
    {
      file := file + [b];
      offset := offset + Size(b);
    }

    /** The channel loop of mdf_start_blocks. */
    method WriteChannels(cgIdx: nat)
      requires cgIdx < |channels|
      modifies this`file, this`offset
      ensures file == old(file) + ChannelBlocks(channels[cgIdx].signals, 0, old(offset))
      ensures offset == old(offset) + SignalsSize(channels[cgIdx].signals)
    {
      var signals := channels[cgIdx].signals;
      var idxCn, max := 0, |signals|;
      while idxCn < max
        invariant 0 <= idxCn <= max == |signals|
        invariant file + ChannelBlocks(signals[idxCn..], idxCn, offset)
               == old(file) + ChannelBlocks(signals, 0, old(offset))
        invariant offset + SignalsSize(signals[idxCn..]) == old(offset) + SignalsSize(signals)
      {
        var cnCnNext := if idxCn < max - 1 then offset + CN_SIZE + TX_SIZE + TextSize(signals[idxCn]) else 0;
        ghost var rest := signals[idxCn..];
        assert rest[1..] == signals[idxCn + 1..];
        Write(Cn(false, cnCnNext, offset + CN_SIZE, 8 * (idxCn + 1)));
        Write(Tx(signals[idxCn]));
        idxCn := idxCn + 1;
      }
      assert signals[idxCn..] == [];
    }

    /** One turn of the group loop of mdf_start_blocks; the result is where its CG block was written. */
    method WriteGroup(idxCg: nat) returns (cgAt: nat)
      requires idxCg < |channels|
      modifies this`file, this`offset
      ensures file == old(file) + GroupBlocks(channels[idxCg..], old(offset))
      ensures cgAt == CgAt(channels[idxCg], old(offset))
      ensures offset == AfterGroup(channels[idxCg], old(offset))
    {
      var inCgCnFirst := offset;
      Write(Cn(true, offset + CN_SIZE + TX_SIZE + 8, offset + CN_SIZE, 0));
      Write(Tx("t"));
      WriteChannels(idxCg);
      cgAt := offset;
      var cgNext := 0;
      if idxCg != |channels| - 1 {
        var next := CalculateCgNextOffset(idxCg);
        cgNext := offset + next;
      }
      Write(Cg(cgNext, inCgCnFirst, offset + CG_SIZE, offset + CG_SIZE));
      Write(Tx(channels[idxCg].name));
    }

    /** The blocks before the channel groups. */
    method WritePreamble()
      requires offset == 0 && file == []
      modifies this`file, this`offset
      ensures file == Preamble(channels) && offset == PREAMBLE
    {
      Write(Id);
      var dgFirst := CalculateDgFirst();
      Write(Hd(dgFirst, offset + HD_SIZE));
      Write(Fh(offset + FH_SIZE));
      Write(Md(MD_TEXT));
      assert |MD_TEXT| == 150;
    }

    /** The group loop of mdf_start_blocks; the result is where the first CG block was written. */
    method WriteGroups() returns (inDgCgFirst: nat)
      modifies this`file, this`offset
      ensures file == old(file) + AllGroups(channels, old(offset))
      ensures offset == old(offset) + GroupsSize(channels)
      ensures inDgCgFirst == if channels == [] then 0 else CgAt(channels[0], old(offset))
    {
      inDgCgFirst := 0;
      var idxCg := 0;
      ghost var goal, end := file + AllGroups(channels, offset), offset + GroupsSize(channels);
      assert channels[0..] == channels;
      while idxCg < |channels|
        invariant 0 <= idxCg <= |channels|
        invariant file + AllGroups(channels[idxCg..], offset) == goal
        invariant offset + GroupsSize(channels[idxCg..]) == end
        invariant if idxCg == 0 then inDgCgFirst == 0 && offset == old(offset)
                  else inDgCgFirst == CgAt(channels[0], old(offset))
      {
        NextGroup(file, channels, idxCg, offset);
        var cgAt := WriteGroup(idxCg);
        if idxCg == 0 {
          inDgCgFirst := cgAt;
        }
        idxCg := idxCg + 1;
      }
      assert channels[idxCg..] == [];
    }

    /** mdf_start_blocks. */
    method WriteStartBlocks()
      requires offset == 0 && file == []
      modifies this`file, this`offset
      ensures file == StartBlocks(channels) && offset == Total(file)
      ensures ReadFile(file) == if AllHaveSignals(channels) then Some(AllExpected(channels)) else None
    {
      WritePreamble();
      var inDgCgFirst := WriteGroups();
      Write(Dg(inDgCgFirst, offset + DG_SIZE));
      Write(Dt);
      assert file == StartBlocks(channels);
      StartBlocksSize(channels);
      LinksRecoverGroups(channels);
    }

    /** mdf_write_records: one record of every group. */
    method WriteRecords(s: Sample)
      requires Fits(channels, s) && |recordIds| == |channels|
      modifies this`cells
      ensures cells == old(cells) + Cells(recordIds, SampleRecords(s, 0))
    {
      var idx := 0;
      while idx < |channels|
        invariant 0 <= idx <= |channels|
        invariant cells + Cells(recordIds, SampleRecords(s, idx)) == old(cells) + Cells(recordIds, SampleRecords(s, 0))
      {
        ghost var rs := SampleRecords(s, idx);
        assert rs[1..] == SampleRecords(s, idx + 1);
        cells := cells + [recordIds[idx]] + [s.timestamp] + s.scalars[idx];
        assert [recordIds[idx]] + ([s.timestamp] + s.scalars[idx]) == RecordCells(recordIds, rs[0]);
        idx := idx + 1;
      }
    }
  }

  lemma NextGroup(file: seq<Block>, groups: seq<Group>, idx: nat, at: nat)
    requires idx < |groups|
    ensures var after := AfterGroup(groups[idx], at);
            && file + AllGroups(groups[idx..], at) == file + GroupBlocks(groups[idx..], at) + AllGroups(groups[idx + 1..], after)
            && at + GroupsSize(groups[idx..]) == after + GroupsSize(groups[idx + 1..])
  {
    assert groups[idx..][1..] == groups[idx + 1..];
  }
}
