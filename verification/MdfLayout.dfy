/** The start blocks of an MDF4 file as dse/clib/mdf/mdf.c writes them, and a reader that knows nothing of
    the writer and only follows links. */
module MdfLayout {
  import opened Options

  /** A channel group: its name and the names of its signals (C strings, without the terminator). */
  datatype Group = Group(name: string, signals: seq<string>)

  /** The blocks with the links the writer sets; link 0 means none.  A text or metadata block carries its text. */
  datatype Block =
    | Id
    | Hd(dgFirst: nat, fhFirst: nat)
    | Fh(mdComment: nat)
    | Md(text: string)
    | Cn(master: bool, cnNext: nat, txName: nat, byteOffset: nat)
    | Tx(text: string)
    | Cg(cgNext: nat, cnFirst: nat, txAcqName: nat, mdComment: nat)
    | Dg(cgFirst: nat, data: nat)
    | Dt

  // sizeof of the packed structs of block.h.
  const ID_SIZE: nat := 64
  const HD_SIZE: nat := 104
  const FH_SIZE: nat := 56
  const MD_SIZE: nat := 24
  const TX_SIZE: nat := 24
  const CN_SIZE: nat := 160
  const CG_SIZE: nat := 104
  const DG_SIZE: nat := 64
  const DT_SIZE: nat := 24

  /** md_data_0: 150 characters in an array of 152. */
  const MD_TEXT: string := "<FHcomment>\n<TX>created</TX>\n<tool_id>FSIL_MDF4</tool_id>\n<tool_vendor>Robert Bosch GmbH</tool_vendor>\n<tool_version>1.0.0</tool_version>\n</FHcomment>"
  const MD_ARRAY: nat := 152

  /** calculate_fulfilment to the base 8. */
  function Fulfilment(size: nat): nat {
    if size % 8 != 0 then 8 - size % 8 else 0
  }

  /** get_offset, and the size _strdup_aligned reports: the text with its terminator, padded to 8. */
  function TextSize(s: string): (n: nat)
    ensures n % 8 == 0 && |s| + 1 <= n <= |s| + 8
  {
    |s| + 1 + Fulfilment(|s| + 1)
  }

  function Size(b: Block): (n: nat)
    ensures n > 0
  {
    match b
    case Id => ID_SIZE
    case Hd(_, _) => HD_SIZE
    case Fh(_) => FH_SIZE
    case Md(text) => MD_SIZE + TextSize(text)
    case Cn(_, _, _, _) => CN_SIZE
    case Tx(text) => TX_SIZE + TextSize(text)
    case Cg(_, _, _, _) => CG_SIZE
    case Dg(_, _) => DG_SIZE
    case Dt => DT_SIZE
  }

  /** The file offset after these blocks. */
  function Total(file: seq<Block>): nat {
    if file == [] then 0 else Size(file[0]) + Total(file[1..])
  }

  // ---- the offsets computed ahead of time ----

  function SignalSize(s: string): nat {
    CN_SIZE + TX_SIZE + TextSize(s)
  }

  function SignalsSize(signals: seq<string>): nat {
    if signals == [] then 0 else SignalSize(signals[0]) + SignalsSize(signals[1..])
  }

  const MASTER_SIZE: nat := CN_SIZE + 8 + TX_SIZE

  function GroupsSize(groups: seq<Group>): nat {
    if groups == [] then 0
    else
      MASTER_SIZE + SignalsSize(groups[0].signals) + CG_SIZE + TX_SIZE + TextSize(groups[0].name)
      + GroupsSize(groups[1..])
  }

  const PREAMBLE: nat := ID_SIZE + HD_SIZE + FH_SIZE + MD_SIZE + MD_ARRAY

  /** calculate_dg_first. */
  function DgFirst(groups: seq<Group>): nat {
    PREAMBLE + GroupsSize(groups)
  }

  /** calculate_cg_next_offset, for the first of these groups: how far its CG block is from the next one. */
  function CgNextOffset(groups: seq<Group>): nat
    requires |groups| > 1
  {
    CG_SIZE + TextSize(groups[0].name) + TX_SIZE + MASTER_SIZE + SignalsSize(groups[1].signals)
  }

  // ---- what is written ----

  /** The blocks of the signals from number idx on, written at offset at. */
  function ChannelBlocks(signals: seq<string>, idx: nat, at: nat): seq<Block> {
    if signals == [] then []
    else
      var next := at + SignalSize(signals[0]);
      [Cn(false, if |signals| > 1 then next else 0, at + CN_SIZE, 8 * (idx + 1)), Tx(signals[0])]
      + ChannelBlocks(signals[1..], idx + 1, next)
  }

  /** Where the CG block of a group written at offset at comes to lie. */
  function CgAt(group: Group, at: nat): nat {
    at + MASTER_SIZE + SignalsSize(group.signals)
  }

  function MasterBlocks(at: nat): seq<Block> {
    [Cn(true, at + MASTER_SIZE, at + CN_SIZE, 0), Tx("t")]
  }

  function GroupTail(groups: seq<Group>, at: nat): seq<Block>
    requires groups != []
  {
    var cg := CgAt(groups[0], at);
    [Cg(if |groups| > 1 then cg + CgNextOffset(groups) else 0, at, cg + CG_SIZE, cg + CG_SIZE), Tx(groups[0].name)]
  }

  function GroupBlocks(groups: seq<Group>, at: nat): seq<Block>
    requires groups != []
  {
    MasterBlocks(at) + ChannelBlocks(groups[0].signals, 0, at + MASTER_SIZE) + GroupTail(groups, at)
  }

  function AfterGroup(group: Group, at: nat): nat {
    CgAt(group, at) + CG_SIZE + TX_SIZE + TextSize(group.name)
  }

  function AllGroups(groups: seq<Group>, at: nat): seq<Block> {
    if groups == [] then [] else GroupBlocks(groups, at) + AllGroups(groups[1..], AfterGroup(groups[0], at))
  }

  function Preamble(groups: seq<Group>): seq<Block> {
    [Id, Hd(DgFirst(groups), ID_SIZE + HD_SIZE), Fh(ID_SIZE + HD_SIZE + FH_SIZE), Md(MD_TEXT)]
  }

  /** The start blocks: what mdf_start_blocks leaves in the file. */
  function StartBlocks(groups: seq<Group>): seq<Block> {
    Preamble(groups) + AllGroups(groups, PREAMBLE) + Ending(groups)
  }

  function Ending(groups: seq<Group>): seq<Block> {
    [Dg(if groups == [] then 0 else CgAt(groups[0], PREAMBLE), DgFirst(groups) + DG_SIZE), Dt]
  }

  // ---- the reader ----

  /** The block that begins at this offset. */
  function BlockAt(file: seq<Block>, at: nat): Option<Block> {
    if file == [] then None
    else if at == 0 then Some(file[0])
    else if at < Size(file[0]) then None
    else BlockAt(file[1..], at - Size(file[0]))
  }

  function TextAt(file: seq<Block>, at: nat): Option<string> {
    match BlockAt(file, at)
    case Some(Tx(text)) => Some(text)
    case _ => None
  }

  /** What the reader learns of a channel and of a channel group. */
  datatype Channel = Channel(master: bool, name: string, byteOffset: nat)
  datatype Found = Found(name: string, comment: string, channels: seq<Channel>)

  /** Follow a channel chain; the links must lead forward. */
  function ReadChannels(file: seq<Block>, at: nat): Option<seq<Channel>>
    decreases Total(file) - at
  {
    match BlockAt(file, at)
    case Some(Cn(master, next, tx, byteOffset)) =>
      var name := TextAt(file, tx);
      if name.None? then None
      else if next == 0 then Some([Channel(master, name.value, byteOffset)])
      else if next <= at || at >= Total(file) then None
      else
        var rest := ReadChannels(file, next);
        if rest.None? then None else Some([Channel(master, name.value, byteOffset)] + rest.value)
    case _ => None
  }

  /** Follow the chain of channel groups, with the name, the comment and the channels of each. */
  function ReadGroups(file: seq<Block>, at: nat): Option<seq<Found>>
    decreases Total(file) - at
  {
    match BlockAt(file, at)
    case Some(Cg(next, cnFirst, tx, comment)) =>
      var name, remark, channels := TextAt(file, tx), TextAt(file, comment), ReadChannels(file, cnFirst);
      if name.None? || remark.None? || channels.None? then None
      else
        var group := Found(name.value, remark.value, channels.value);
        if next == 0 then Some([group])
        else if next <= at || at >= Total(file) then None
        else
          var rest := ReadGroups(file, next);
          if rest.None? then None else Some([group] + rest.value)
    case _ => None
  }

  /** What a reader should find of a group: the master channel "t" at the start of the record, then the signals in
      order, each in the next eight bytes. */
  function Expected(group: Group): Found {
    Found(group.name, group.name, [Channel(true, "t", 0)] + SignalChannels(group.signals, 1))
  }

  function SignalChannels(signals: seq<string>, k: nat): seq<Channel> {
    seq(|signals|, i requires 0 <= i < |signals| => Channel(false, signals[i], 8 * (k + i)))
  }

  function AllExpected(groups: seq<Group>): seq<Found> {
    seq(|groups|, i requires 0 <= i < |groups| => Expected(groups[i]))
  }

  /** Read a file from its header: the history with its comment, the data group with its data block, and
      the channel groups. */
  function ReadFile(file: seq<Block>): Option<seq<Found>> {
    match BlockAt(file, ID_SIZE)
    case Some(Hd(dgFirst, fhFirst)) =>
      (match (BlockAt(file, fhFirst), BlockAt(file, dgFirst))
       case (Some(Fh(md)), Some(Dg(cgFirst, data))) =>
         if BlockAt(file, md) != Some(Md(MD_TEXT)) || BlockAt(file, data) != Some(Dt) then None
         else if cgFirst == 0 then Some([])
         else ReadGroups(file, cgFirst)
       case _ => None)
    case _ => None
  }

  // ---- links and offsets agree ----

  lemma {:induction false} TotalConcat(x: seq<Block>, y: seq<Block>)
    ensures Total(x + y) == Total(x) + Total(y)
    decreases |x|
  {
    if x == [] {
      assert x + y == y;
    } else {
      TotalConcat(x[1..], y);
      assert (x + y)[1..] == x[1..] + y;
    }
  }

  /** The block written when the offset was Total(pre) is the block a link to that offset finds. */
  lemma {:induction false} BlockAfter(pre: seq<Block>, b: Block, post: seq<Block>)
    ensures BlockAt(pre + [b] + post, Total(pre)) == Some(b)
    ensures Total(pre) < Total(pre + [b] + post)
    decreases |pre|
  {
    var file := pre + [b] + post;
    if pre == [] {
      assert file[0] == b;
    } else {
      BlockAfter(pre[1..], b, post);
      assert file[1..] == pre[1..] + [b] + post && file[0] == pre[0];
    }
  }

  /** `b` stands in the file at this offset. */
  ghost predicate Stands(file: seq<Block>, at: nat, b: Block) {
    BlockAt(file, at) == Some(b) && at < Total(file)
  }

  /** These blocks stand in the file one after the other from this offset on. */
  ghost predicate Written(file: seq<Block>, at: nat, blocks: seq<Block>) {
    exists pre, post :: file == pre + blocks + post && Total(pre) == at
  }

  lemma WrittenStands(file: seq<Block>, at: nat, blocks: seq<Block>)
    requires Written(file, at, blocks)
    ensures blocks != [] ==> Stands(file, at, blocks[0]) && Written(file, at + Size(blocks[0]), blocks[1..])
  {
    if blocks != [] {
      var pre, post :| file == pre + blocks + post && Total(pre) == at;
      assert file == pre + [blocks[0]] + (blocks[1..] + post);
      BlockAfter(pre, blocks[0], blocks[1..] + post);
      TotalConcat(pre, [blocks[0]]);
      assert file == (pre + [blocks[0]]) + blocks[1..] + post;
    }
  }

  lemma WrittenSplit(file: seq<Block>, at: nat, x: seq<Block>, y: seq<Block>)
    requires Written(file, at, x + y)
    ensures Written(file, at, x) && Written(file, at + Total(x), y)
  {
    var pre, post :| file == pre + (x + y) + post && Total(pre) == at;
    assert file == pre + x + (y + post);
    assert file == (pre + x) + y + post;
    TotalConcat(pre, x);
  }

  /** A CN or CG block and the text block behind it. */
  lemma PairStands(file: seq<Block>, at: nat, b: Block, text: string)
    requires Written(file, at, [b, Tx(text)])
    ensures Stands(file, at, b) && TextAt(file, at + Size(b)) == Some(text)
  {
    WrittenStands(file, at, [b, Tx(text)]);
    assert [b, Tx(text)][1..] == [Tx(text)];
    WrittenStands(file, at + Size(b), [Tx(text)]);
  }

  lemma {:induction false} ChannelsSize(signals: seq<string>, idx: nat, at: nat)
    ensures Total(ChannelBlocks(signals, idx, at)) == SignalsSize(signals)
    decreases |signals|
  {
    if signals != [] {
      var blocks := ChannelBlocks(signals, idx, at);
      var rest := ChannelBlocks(signals[1..], idx + 1, at + SignalSize(signals[0]));
      ChannelsSize(signals[1..], idx + 1, at + SignalSize(signals[0]));
      TotalConcat(blocks[..2], rest);
      TwoBlocks(blocks[0], blocks[1]);
      assert blocks == [blocks[0], blocks[1]] + rest;
    }
  }

  lemma TwoBlocks(b: Block, c: Block)
    ensures Total([b, c]) == Size(b) + Size(c)
  {
    assert [b, c][1..] == [c];
    assert Total([c]) == Size(c) + Total([c][1..]);
  }

  lemma GroupSize(groups: seq<Group>, at: nat)
    requires groups != []
    ensures at + Total(GroupBlocks(groups, at)) == AfterGroup(groups[0], at)
  {
    var m, c, t := MasterBlocks(at), ChannelBlocks(groups[0].signals, 0, at + MASTER_SIZE), GroupTail(groups, at);
    TotalConcat(m + c, t);
    TotalConcat(m, c);
    TwoBlocks(m[0], m[1]);
    TwoBlocks(t[0], t[1]);
    ChannelsSize(groups[0].signals, 0, at + MASTER_SIZE);
  }

  lemma {:induction false} AllGroupsSize(groups: seq<Group>, at: nat)
    ensures Total(AllGroups(groups, at)) == GroupsSize(groups)
    decreases |groups|
  {
    if groups != [] {
      GroupSize(groups, at);
      AllGroupsSize(groups[1..], AfterGroup(groups[0], at));
      TotalConcat(GroupBlocks(groups, at), AllGroups(groups[1..], AfterGroup(groups[0], at)));
    }
  }

  /** Following a signal chain from where it was written visits all of its signals in order, each eight bytes
      further into the record. */
  lemma {:induction false} ReadSignals(file: seq<Block>, signals: seq<string>, idx: nat, at: nat)
    requires signals != [] && at > 0 && Written(file, at, ChannelBlocks(signals, idx, at))
    ensures ReadChannels(file, at) == Some(SignalChannels(signals, idx + 1))
    decreases |signals|
  {
    var blocks, next := ChannelBlocks(signals, idx, at), at + SignalSize(signals[0]);
    var rest := ChannelBlocks(signals[1..], idx + 1, next);
    var cn := blocks[0];
    assert blocks == [cn, Tx(signals[0])] + rest;
    WrittenSplit(file, at, [cn, Tx(signals[0])], rest);
    TwoBlocks(cn, Tx(signals[0]));
    PairStands(file, at, cn, signals[0]);
    FirstChannel(signals, idx + 1);
    if |signals| > 1 {
      ReadSignals(file, signals[1..], idx + 1, next);
    }
  }

  lemma FirstChannel(signals: seq<string>, k: nat)
    requires signals != []
    ensures SignalChannels(signals, k) == [Channel(false, signals[0], 8 * k)] + SignalChannels(signals[1..], k + 1)
    ensures |signals| == 1 ==> SignalChannels(signals, k) == [Channel(false, signals[0], 8 * k)]
  {
  }

  lemma ReadMaster(file: seq<Block>, at: nat, next: nat, tx: nat)
    requires Stands(file, at, Cn(true, next, tx, 0)) && TextAt(file, tx) == Some("t") && next > at
    ensures var rest := ReadChannels(file, next);
            ReadChannels(file, at) == if rest.None? then None else Some([Channel(true, "t", 0)] + rest.value)
  {
  }

  /** The master channel stands where its group begins, its signals behind it, and the channel group behind these. */
  lemma MasterStands(file: seq<Block>, groups: seq<Group>, at: nat)
    requires groups != [] && Written(file, at, GroupBlocks(groups, at))
    ensures Stands(file, at, MasterBlocks(at)[0]) && TextAt(file, at + CN_SIZE) == Some("t")
    ensures Written(file, at + MASTER_SIZE, ChannelBlocks(groups[0].signals, 0, at + MASTER_SIZE))
    ensures Written(file, CgAt(groups[0], at), GroupTail(groups, at))
  {
    var m, c, t := MasterBlocks(at), ChannelBlocks(groups[0].signals, 0, at + MASTER_SIZE), GroupTail(groups, at);
    WrittenSplit(file, at, m + c, t);
    WrittenSplit(file, at, m, c);
    TotalConcat(m, c);
    TwoBlocks(m[0], m[1]);
    ChannelsSize(groups[0].signals, 0, at + MASTER_SIZE);
    PairStands(file, at, m[0], "t");
  }

  /** The channels of a group are read back exactly if it has a signal: the master channel always links
      to what follows it, which without a signal is the channel group block. */
  lemma ReadGroupChannels(file: seq<Block>, groups: seq<Group>, at: nat)
    requires groups != [] && at > 0 && Written(file, at, GroupBlocks(groups, at))
    ensures ReadChannels(file, at) == if groups[0].signals == [] then None else Some(Expected(groups[0]).channels)
  {
    MasterStands(file, groups, at);
    ReadMaster(file, at, at + MASTER_SIZE, at + CN_SIZE);
    if groups[0].signals == [] {
      WrittenStands(file, CgAt(groups[0], at), GroupTail(groups, at));
    } else {
      ReadSignals(file, groups[0].signals, 0, at + MASTER_SIZE);
    }
  }

  lemma GroupTailStands(file: seq<Block>, groups: seq<Group>, at: nat)
    requires groups != [] && Written(file, at, GroupBlocks(groups, at))
    ensures var cg := CgAt(groups[0], at);
            Stands(file, cg, GroupTail(groups, at)[0]) && TextAt(file, cg + CG_SIZE) == Some(groups[0].name)
  {
    MasterStands(file, groups, at);
    PairStands(file, CgAt(groups[0], at), GroupTail(groups, at)[0], groups[0].name);
  }

  predicate AllHaveSignals(groups: seq<Group>) {
    forall i :: 0 <= i < |groups| ==> groups[i].signals != []
  }

  lemma FirstHasSignals(groups: seq<Group>)
    requires groups != []
    ensures AllHaveSignals(groups) <==> groups[0].signals != [] && AllHaveSignals(groups[1..])
  {
    if groups[0].signals != [] && AllHaveSignals(groups[1..]) {
      forall i | 0 <= i < |groups| ensures groups[i].signals != [] {
        assert i > 0 ==> groups[i] == groups[1..][i - 1];
      }
    }
  }

  /** One turn of the reader at a group that was written here. */
  lemma ReadOneGroup(file: seq<Block>, groups: seq<Group>, at: nat)
    requires groups != [] && at > 0 && Written(file, at, GroupBlocks(groups, at))
    requires |groups| > 1 ==> ReadGroups(file, CgAt(groups[0], at) + CgNextOffset(groups)) ==
                                (if AllHaveSignals(groups[1..]) then Some(AllExpected(groups[1..])) else None)
    ensures ReadGroups(file, CgAt(groups[0], at)) ==
              if groups[0].signals == [] then None
              else if |groups| == 1 then Some([Expected(groups[0])])
              else if AllHaveSignals(groups[1..]) then Some([Expected(groups[0])] + AllExpected(groups[1..])) else None
  {
    ReadGroupChannels(file, groups, at);
    GroupTailStands(file, groups, at);
  }

  /** Following the group chain from where it was written gives the groups back, all of them in order,
      exactly if each has a signal. */
  lemma {:induction false} ReadAllGroups(file: seq<Block>, groups: seq<Group>, at: nat)
    requires groups != [] && at > 0 && Written(file, at, AllGroups(groups, at))
    ensures ReadGroups(file, CgAt(groups[0], at)) == if AllHaveSignals(groups) then Some(AllExpected(groups)) else None
    decreases |groups|
  {
    var after := AfterGroup(groups[0], at);
    WrittenSplit(file, at, GroupBlocks(groups, at), AllGroups(groups[1..], after));
    GroupSize(groups, at);
    if |groups| > 1 {
      ReadAllGroups(file, groups[1..], after);
      NextCg(groups, at);
    }
    ReadOneGroup(file, groups, at);
    FirstHasSignals(groups);
    FirstAndRest(groups);
  }

  lemma FirstAndRest(groups: seq<Group>)
    requires groups != []
    ensures [Expected(groups[0])] + AllExpected(groups[1..]) == AllExpected(groups)
    ensures |groups| == 1 ==> [Expected(groups[0])] == AllExpected(groups)
  {
  }

  /** cg_cg_next, computed ahead of time, is where the next CG block comes to lie. */
  lemma NextCg(groups: seq<Group>, at: nat)
    requires |groups| > 1
    ensures CgAt(groups[0], at) + CgNextOffset(groups) == CgAt(groups[1..][0], AfterGroup(groups[0], at))
  {
  }

  lemma PreambleSize(groups: seq<Group>)
    ensures Total(Preamble(groups)) == PREAMBLE
  {
    var p := Preamble(groups);
    assert p == [p[0], p[1]] + [p[2], p[3]];
    TotalConcat([p[0], p[1]], [p[2], p[3]]);
    TwoBlocks(p[0], p[1]);
    TwoBlocks(p[2], p[3]);
    assert |MD_TEXT| == 150;
  }

  /** The three parts of the file, at their offsets. */
  lemma ThreeParts(groups: seq<Group>)
    ensures var file := StartBlocks(groups);
            && Written(file, 0, Preamble(groups))
            && Written(file, PREAMBLE, AllGroups(groups, PREAMBLE))
            && Written(file, DgFirst(groups), Ending(groups))
  {
    var file, p, a, e := StartBlocks(groups), Preamble(groups), AllGroups(groups, PREAMBLE), Ending(groups);
    assert file == [] + (p + a + e) + [];
    assert Written(file, 0, p + a + e);
    WrittenSplit(file, 0, p + a, e);
    WrittenSplit(file, 0, p, a);
    TotalConcat(p, a);
    PreambleSize(groups);
    AllGroupsSize(groups, PREAMBLE);
  }

  lemma PreambleLinks(groups: seq<Group>)
    ensures var file := StartBlocks(groups); var p := Preamble(groups);
            && Stands(file, ID_SIZE, p[1])
            && Stands(file, p[1].fhFirst, p[2])
            && Stands(file, p[2].mdComment, Md(MD_TEXT))
  {
    var file, p := StartBlocks(groups), Preamble(groups);
    ThreeParts(groups);
    WrittenStands(file, 0, p);
    assert p[1..] == [p[1], p[2], p[3]] && p[1..][1..] == [p[2], p[3]] && p[1..][1..][1..] == [p[3]];
    WrittenStands(file, ID_SIZE, p[1..]);
    WrittenStands(file, ID_SIZE + HD_SIZE, p[1..][1..]);
    WrittenStands(file, ID_SIZE + HD_SIZE + FH_SIZE, p[1..][1..][1..]);
  }

  /** The links of the preamble, dg_first and dg_data included, lead to their blocks. */
  lemma FixedLinks(groups: seq<Group>)
    ensures var file := StartBlocks(groups); var p, e := Preamble(groups), Ending(groups);
            && Stands(file, ID_SIZE, p[1])
            && Stands(file, p[1].fhFirst, p[2])
            && Stands(file, p[2].mdComment, Md(MD_TEXT))
            && Stands(file, p[1].dgFirst, e[0])
            && Stands(file, e[0].data, Dt)
            && Written(file, PREAMBLE, AllGroups(groups, PREAMBLE))
  {
    var file, e := StartBlocks(groups), Ending(groups);
    ThreeParts(groups);
    PreambleLinks(groups);
    WrittenStands(file, DgFirst(groups), e);
    assert e[1..] == [Dt];
    WrittenStands(file, DgFirst(groups) + DG_SIZE, e[1..]);
  }

  /** A reader that only follows links recovers the groups and signals that were written, in order, with their
      names and with their places in the record, exactly if every group has at least one signal. */
  lemma LinksRecoverGroups(groups: seq<Group>)
    ensures ReadFile(StartBlocks(groups)) == if AllHaveSignals(groups) then Some(AllExpected(groups)) else None
  {
    var file := StartBlocks(groups);
    FixedLinks(groups);
    if groups != [] {
      ReadAllGroups(file, groups, PREAMBLE);
      assert CgAt(groups[0], PREAMBLE) != 0;
    } else {
      assert AllExpected(groups) == [];
    }
  }

  /** In every group found, channel k takes the eight bytes at 8 * k, and channel 0 is the master: the channels
      fill a record of a timestamp and one value a signal without gap or overlap. */
  lemma ChannelsTileTheRecord(groups: seq<Group>, g: nat, k: nat)
    requires AllHaveSignals(groups) && g < |groups| && k <= |groups[g].signals|
    ensures var found := ReadFile(StartBlocks(groups));
            && found.Some? && |found.value| == |groups| && |found.value[g].channels| == |groups[g].signals| + 1
            && found.value[g].channels[k].byteOffset == 8 * k && (found.value[g].channels[k].master <==> k == 0)
  {
    LinksRecoverGroups(groups);
  }

  /** Every block begins at a multiple of eight. */
  lemma {:induction false} BlocksAligned(file: seq<Block>, i: nat)
    requires i <= |file|
    ensures Total(file[..i]) % 8 == 0
  {
    if i > 0 {
      BlocksAligned(file, i - 1);
      assert file[..i] == file[..i - 1] + [file[i - 1]];
      TotalConcat(file[..i - 1], [file[i - 1]]);
    }
  }

  lemma ShortText(s: string)
    requires |s| <= 7
    ensures TextSize(s) == 8
  {
  }

  lemma OneSignal(signal: string, at: nat)
    requires |signal| <= 7
    ensures ChannelBlocks([signal], 0, at) == [Cn(false, 0, at + 160, 8), Tx(signal)] && SignalsSize([signal]) == 192
  {
    ShortText(signal);
    assert [signal][1..] == [];
  }

  /** One group with one signal, both names of at most seven characters: every block with every link. */
  lemma OneSignalFile(name: string, signal: string, groups: seq<Group>)
    requires |name| <= 7 && |signal| <= 7 && groups == [Group(name, [signal])]
    ensures StartBlocks(groups)
         == [Id, Hd(920, 168), Fh(224), Md(MD_TEXT),
             Cn(true, 592, 560, 0), Tx("t"), Cn(false, 0, 752, 8), Tx(signal),
             Cg(0, 400, 888, 888), Tx(name), Dg(784, 984), Dt]
    ensures Total(StartBlocks(groups)) == 1008
  {
    ShortText(name);
    OneSignal(signal, PREAMBLE + MASTER_SIZE);
    assert groups[1..] == [];
    assert AllGroups(groups, PREAMBLE) == GroupBlocks(groups, PREAMBLE);
    assert GroupsSize(groups) == 520;
    StartBlocksSize(groups);
  }

  lemma StartBlocksSize(groups: seq<Group>)
    ensures Total(StartBlocks(groups)) == DgFirst(groups) + DG_SIZE + DT_SIZE
  {
    TotalConcat(Preamble(groups) + AllGroups(groups, PREAMBLE), Ending(groups));
    TotalConcat(Preamble(groups), AllGroups(groups, PREAMBLE));
    PreambleSize(groups);
    AllGroupsSize(groups, PREAMBLE);
    TwoBlocks(Ending(groups)[0], Ending(groups)[1]);
  }
}
