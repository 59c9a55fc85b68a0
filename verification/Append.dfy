/** Appending a record to a table and taking the last one away again.

    A record goes into every tag, then its memos are written, then the record itself; a stage that fails
    is followed by the removal of what the tags were given.  `Valid` says that every tag holds what
    it should for the records the file holds, and that the file is as long as they make it. */
module Append {
  import opened Wrappers
  import opened Bytes

  type Record = seq<Raw>

  const END_OF_FILE: Raw := 0x1A

  // ----- what is indexed -----

  /** What a tag does with a key that another record already has. */
  datatype Unique = Repeats | Refuses | Complains | Ignores

  datatype TagDef = TagDef(key: Record -> seq<Raw>, filter: Record -> bool, unique: Unique)

  datatype Entry = Entry(key: seq<Raw>, rec: nat)

  /** `Refused` stands for the positive codes that stop a stage, `Skipped` for the one that does not. */
  datatype Rc = Success | Refused | Skipped | Failed

  predicate HasKey(entries: multiset<Entry>, key: seq<Raw>) {
    exists e :: e in entries && e.key == key
  }

  /** What a tag answers when record `r` is added to it. */
  function AddRc(tag: TagDef, entries: multiset<Entry>, r: Record): Rc {
    if !tag.filter(r) || tag.unique == Repeats || !HasKey(entries, tag.key(r)) then Success
    else if tag.unique == Refuses then Refused
    else if tag.unique == Complains then Failed
    else Skipped
  }

  /** What it holds then. */
  function Added(tag: TagDef, entries: multiset<Entry>, r: Record, rec: nat): (all: multiset<Entry>)
    ensures AddRc(tag, entries, r) != Success ==> all == entries
  {
    if tag.filter(r) && AddRc(tag, entries, r) == Success then entries + multiset{Entry(tag.key(r), rec)} else entries
  }

  function Removed(tag: TagDef, entries: multiset<Entry>, r: Record, rec: nat): multiset<Entry> {
    entries - multiset{Entry(tag.key(r), rec)}
  }

  /** One entry for every record the filter admits: its key and its number. */
  ghost function Listed(tag: TagDef, rows: seq<Record>): multiset<Entry> {
    if rows == [] then multiset{}
    else
      var n := |rows| - 1;
      Listed(tag, rows[..n]) + if tag.filter(rows[n]) then multiset{Entry(tag.key(rows[n]), n + 1)} else multiset{}
  }

  /** What the tag holds when the records came in this order. */
  ghost function Kept(tag: TagDef, rows: seq<Record>): multiset<Entry> {
    if rows == [] then multiset{} else Added(tag, Kept(tag, rows[..|rows| - 1]), rows[|rows| - 1], |rows|)
  }

  /** Two admitted records have one key. */
  ghost predicate Repeated(tag: TagDef, rows: seq<Record>) {
    exists i, j :: 0 <= i < j < |rows| && SameKey(tag, rows, i, j)
  }

  ghost predicate SameKey(tag: TagDef, rows: seq<Record>, i: nat, j: nat)
    requires i < |rows| && j < |rows|
  {
    tag.filter(rows[i]) && tag.filter(rows[j]) && tag.key(rows[i]) == tag.key(rows[j])
  }

  lemma {:induction false} SnocRows(rows: seq<Record>, r: Record)
    ensures (rows + [r])[..|rows + [r]| - 1] == rows
  {
  }

  /** An entry belongs to a record the tag admits, has its key and its number, and is there once. */
  lemma {:induction false} KeptEntries(tag: TagDef, rows: seq<Record>, e: Entry)
    requires e in Kept(tag, rows)
    ensures 1 <= e.rec <= |rows| && tag.filter(rows[e.rec - 1]) && e.key == tag.key(rows[e.rec - 1])
    ensures Kept(tag, rows)[e] == 1
  {
    var n := |rows| - 1;
    if e in Kept(tag, rows[..n]) {
      KeptEntries(tag, rows[..n], e);
    }
  }

  /** The key of every admitted record is in the tag. */
  lemma {:induction false} KeptKeys(tag: TagDef, rows: seq<Record>, i: nat)
    requires i < |rows| && tag.filter(rows[i])
    ensures HasKey(Kept(tag, rows), tag.key(rows[i]))
  {
    var n := |rows| - 1;
    if i < n {
      KeptKeys(tag, rows[..n], i);
      var e :| e in Kept(tag, rows[..n]) && e.key == tag.key(rows[i]);
      assert e in Kept(tag, rows);
    } else if AddRc(tag, Kept(tag, rows[..n]), rows[n]) == Success {
      assert Entry(tag.key(rows[i]), n + 1) in Kept(tag, rows);
    } else {
      var e :| e in Kept(tag, rows[..n]) && e.key == tag.key(rows[i]);
      assert e in Kept(tag, rows);
    }
  }

  /** A tag is unwilling to add a record exactly when an earlier admitted one has its key. */
  lemma {:induction false} WillingToAdd(tag: TagDef, rows: seq<Record>, r: Record)
    requires tag.filter(r)
    ensures HasKey(Kept(tag, rows), tag.key(r)) <==> exists i :: 0 <= i < |rows| && SameKey(tag, rows + [r], i, |rows|)
  {
    if HasKey(Kept(tag, rows), tag.key(r)) {
      var e :| e in Kept(tag, rows) && e.key == tag.key(r);
      KeptEntries(tag, rows, e);
      assert SameKey(tag, rows + [r], e.rec - 1, |rows|);
    }
    if i :| 0 <= i < |rows| && SameKey(tag, rows + [r], i, |rows|) {
      KeptKeys(tag, rows, i);
    }
  }

  /** The tag neither takes repeated keys nor passes over them, and one of these records has this one's. */
  ghost predicate Objects(tag: TagDef, rows: seq<Record>, r: Record) {
    && tag.unique in {Refuses, Complains} && tag.filter(r)
    && exists i :: 0 <= i < |rows| && tag.filter(rows[i]) && tag.key(rows[i]) == tag.key(r)
  }

  lemma {:induction false} AddObjects(tag: TagDef, rows: seq<Record>, r: Record)
    ensures AddRc(tag, Kept(tag, rows), r) == Failed <==> Objects(tag, rows, r) && tag.unique == Complains
    ensures AddRc(tag, Kept(tag, rows), r) == Refused <==> Objects(tag, rows, r) && tag.unique == Refuses
  {
    hide HasKey, Kept;
    if tag.filter(r) {
      WillingToAdd(tag, rows, r);
      forall i | 0 <= i < |rows|
        ensures SameKey(tag, rows + [r], i, |rows|) <==> tag.filter(rows[i]) && tag.key(rows[i]) == tag.key(r)
      {
        assert (rows + [r])[i] == rows[i] && (rows + [r])[|rows|] == r;
      }
    }
  }

  /** The first tag that objects to the record, or that cannot be written. */
  ghost predicate Stops(tags: seq<TagDef>, rows: seq<Record>, r: Record, fault: Option<nat>, i: nat) {
    && i < |tags| && (fault == Some(i) || Objects(tags[i], rows, r))
    && forall j :: 0 <= j < i ==> fault != Some(j) && !Objects(tags[j], rows, r)
  }

  ghost predicate Stopped(tags: seq<TagDef>, rows: seq<Record>, r: Record, fault: Option<nat>) {
    exists i :: Stops(tags, rows, r, fault, i)
  }

  /** What the tags answer together: the first that stops the record decides. */
  ghost predicate Answers(tags: seq<TagDef>, rows: seq<Record>, r: Record, fault: Option<nat>, rc: Rc) {
    && (rc == Success <==> !Stopped(tags, rows, r, fault))
    && forall i: nat :: Stops(tags, rows, r, fault, i) ==>
         rc == if fault == Some(i) || tags[i].unique == Complains then Failed else Refused
  }

  lemma {:induction false} AnswersAt(tags: seq<TagDef>, rows: seq<Record>, r: Record, fault: Option<nat>, i: nat,
                                     rc: Rc)
    requires i <= |tags| && forall j :: 0 <= j < i ==> fault != Some(j) && !Objects(tags[j], rows, r)
    requires i == |tags| ==> rc == Success
    requires i < |tags| ==> rc in {Failed, Refused} && (fault == Some(i) || Objects(tags[i], rows, r))
    requires i < |tags| ==> (rc == Failed <==> fault == Some(i) || tags[i].unique == Complains)
    ensures Answers(tags, rows, r, fault, rc)
  {
    hide Objects;
    if i < |tags| { assert Stops(tags, rows, r, fault, i); }
  }

  /** Where some tag objects there is a first that does. */
  lemma {:induction false} EarliestStops(tags: seq<TagDef>, rows: seq<Record>, r: Record, fault: Option<nat>, i: nat)
    requires i < |tags| && (fault == Some(i) || Objects(tags[i], rows, r))
    ensures Stopped(tags, rows, r, fault)
  {
    hide Objects;
    if j: nat :| j < i && (fault == Some(j) || Objects(tags[j], rows, r)) {
      EarliestStops(tags, rows, r, fault, j);
    } else {
      assert Stops(tags, rows, r, fault, i);
    }
  }

  lemma {:induction false} StoppedIs(tags: seq<TagDef>, rows: seq<Record>, r: Record)
    ensures Stopped(tags, rows, r, None) <==> exists i :: 0 <= i < |tags| && Objects(tags[i], rows, r)
  {
    hide Objects;
    if i: nat :| i < |tags| && Objects(tags[i], rows, r) { EarliestStops(tags, rows, r, None, i); }
  }

  lemma {:induction false} RepeatedSnoc(tag: TagDef, rows: seq<Record>, r: Record)
    ensures Repeated(tag, rows + [r]) <==>
              Repeated(tag, rows) || exists i :: 0 <= i < |rows| && SameKey(tag, rows + [r], i, |rows|)
  {
    var all := rows + [r];
    forall i, j | 0 <= i < j < |rows| ensures SameKey(tag, all, i, j) <==> SameKey(tag, rows, i, j) {}
    if Repeated(tag, all) {
      var i, j :| 0 <= i < j < |all| && SameKey(tag, all, i, j);
      assert j == |rows| || SameKey(tag, rows, i, j);
    }
    if Repeated(tag, rows) {
      var i, j :| 0 <= i < j < |rows| && SameKey(tag, rows, i, j);
      assert SameKey(tag, all, i, j);
    }
  }

  lemma {:induction false} OneMore(k: multiset<Entry>, l: multiset<Entry>, e: Entry)
    requires k <= l && l[e] == 0
    ensures k + multiset{e} == l + multiset{e} <==> k == l
    ensures k + multiset{e} <= l + multiset{e} && k <= l + multiset{e} && k != l + multiset{e}
  {
    assert (k + multiset{e}) - multiset{e} == k && (l + multiset{e}) - multiset{e} == l;
    assert (l + multiset{e})[e] == 1 && k[e] == 0;
  }

  /** A tag lists every admitted record exactly when it takes repeated keys or there are none. */
  lemma {:induction false} KeptIsListed(tag: TagDef, rows: seq<Record>)
    ensures Kept(tag, rows) == Listed(tag, rows) <==> tag.unique == Repeats || !Repeated(tag, rows)
    ensures Kept(tag, rows) <= Listed(tag, rows)
  {
    hide Repeated, HasKey, SameKey, Kept, Listed, Added;
    if rows != [] {
      var n := |rows| - 1;
      var before, r := rows[..n], rows[n];
      assert rows == before + [r];
      KeptIsListed(tag, before);
      RepeatedSnoc(tag, before, r);
      Snoc(tag, before, r);
      if tag.filter(r) {
        WillingToAdd(tag, before, r);
        ListedCounts(tag, before, Entry(tag.key(r), n + 1));
        OneMore(Kept(tag, before), Listed(tag, before), Entry(tag.key(r), n + 1));
      } else {
        Excluded(tag, before, r);
      }
    } else {
      NoneRepeated(tag);
    }
  }

  /** Of two records with one key a tag that ignores repeated keys lists the first only. */
  lemma {:induction false} SecondIgnored()
    ensures var tag := TagDef((r: Record) => r, (r: Record) => true, Ignores);
            Entry([], 2) in Listed(tag, [[], []]) && Entry([], 2) !in Kept(tag, [[], []])
  {
    var tag := TagDef((r: Record) => r, (r: Record) => true, Ignores);
    var rows: seq<Record> := [[], []];
    assert rows[..1] == [[]];
    assert Kept(tag, [[]]) == multiset{Entry([], 1)};
  }

  lemma {:induction false} Excluded(tag: TagDef, rows: seq<Record>, r: Record)
    requires !tag.filter(r)
    ensures !exists i :: 0 <= i < |rows| && SameKey(tag, rows + [r], i, |rows|)
  {
  }

  lemma {:induction false} Snoc(tag: TagDef, rows: seq<Record>, r: Record)
    ensures var e := Entry(tag.key(r), |rows| + 1);
            && Listed(tag, rows + [r]) == (if tag.filter(r) then Listed(tag, rows) + multiset{e} else Listed(tag, rows))
            && Kept(tag, rows + [r]) == Added(tag, Kept(tag, rows), r, |rows| + 1)
            && Added(tag, Kept(tag, rows), r, |rows| + 1)
               == if tag.filter(r) && (tag.unique == Repeats || !HasKey(Kept(tag, rows), tag.key(r)))
                  then Kept(tag, rows) + multiset{e} else Kept(tag, rows)
  {
    SnocRows(rows, r);
  }

  lemma {:induction false} NoneRepeated(tag: TagDef)
    ensures !Repeated(tag, []) && Kept(tag, []) == Listed(tag, [])
  {
  }

  lemma {:induction false} ListedCounts(tag: TagDef, rows: seq<Record>, e: Entry)
    requires e.rec > |rows|
    ensures Listed(tag, rows)[e] == 0
  {
    if rows != [] { ListedCounts(tag, rows[..|rows| - 1], e); }
  }

  /** Removing what the last record would have added gives back what was there before. */
  lemma {:induction false} RemoveLast(tag: TagDef, rows: seq<Record>, r: Record)
    ensures Removed(tag, Kept(tag, rows + [r]), r, |rows| + 1) == Kept(tag, rows)
    ensures Removed(tag, Kept(tag, rows), r, |rows| + 1) == Kept(tag, rows)
  {
    SnocRows(rows, r);
    var e := Entry(tag.key(r), |rows| + 1);
    if e in Kept(tag, rows) { KeptEntries(tag, rows, e); }
    assert Kept(tag, rows)[e] == 0;
  }

  // ----- the data file -----

  datatype MemoField = MemoField(offset: nat, len: nat)

  /** What is fixed while a table is open.  `idBytes` and `blankId` are the two ways of filling the
      memo field `k` of a record, `isNull` the test of its null flag, `blank` the blank record. */
  datatype Layout = Layout(
    header: nat,
    width: nat,
    endless: bool,
    tags: seq<TagDef>,
    memos: seq<MemoField>,
    isNull: (Record, nat) -> bool,
    idBytes: (nat, nat) -> Record,
    blankId: nat -> Record,
    blank: Record)

  function Splice(r: Record, f: MemoField, bytes: Record): Record
    requires f.offset + f.len <= |r|
  {
    r[..f.offset] + bytes + r[f.offset + f.len..]
  }

  /** Memo fields lie inside the record and are filled to their length. */
  ghost predicate FieldsOk(l: Layout) {
    && (forall k :: 0 <= k < |l.memos| ==> l.memos[k].offset + l.memos[k].len <= l.width)
    && (forall k, id :: 0 <= k < |l.memos| ==> |l.idBytes(k, id)| == l.memos[k].len)
    && (forall k :: 0 <= k < |l.memos| ==> |l.blankId(k)| == l.memos[k].len)
    && |l.blank| == l.width
  }

  /** Neither keys nor filters depend on the memo fields. */
  ghost predicate TagsBlind(l: Layout)
    requires FieldsOk(l)
  {
    forall k, r, bytes :: 0 <= k < |l.memos| && |r| == l.width && |bytes| == l.memos[k].len ==>
      Alike(l, r, Splice(r, l.memos[k], bytes))
  }

  ghost predicate LayoutOk(l: Layout) {
    FieldsOk(l) && TagsBlind(l)
  }

  /** Two records no tag can tell apart. */
  ghost predicate Alike(l: Layout, r: Record, q: Record) {
    forall i :: 0 <= i < |l.tags| ==> l.tags[i].key(r) == l.tags[i].key(q) && l.tags[i].filter(r) == l.tags[i].filter(q)
  }

  function Position(l: Layout, rec: nat): nat
    requires rec >= 1
  {
    l.header + (rec - 1) * l.width
  }

  function Write(file: seq<Raw>, pos: nat, bytes: seq<Raw>): seq<Raw>
    requires pos <= |file|
  {
    if pos + |bytes| < |file| then file[..pos] + bytes + file[pos + |bytes|..] else file[..pos] + bytes
  }

  function FileLength(l: Layout, count: nat): nat {
    l.header + count * l.width + if l.endless then 0 else 1
  }

  /** The file ends right after its last record, with the end mark if it has one. */
  predicate FileOk(l: Layout, file: seq<Raw>, count: nat) {
    && |file| == FileLength(l, count)
    && (!l.endless ==> file[|file| - 1] == END_OF_FILE)
  }

  ghost function Rows(l: Layout, file: seq<Raw>, count: nat): (rows: seq<Record>)
    requires |file| >= l.header + count * l.width
    ensures |rows| == count
    ensures forall i :: 0 <= i < count ==> |rows[i]| == l.width
  {
    if count == 0 then []
    else
      Spans(l, count);
      Rows(l, file, count - 1) + [file[Position(l, count)..Position(l, count) + l.width]]
  }

  lemma {:induction false} Spans(l: Layout, count: nat)
    requires count >= 1
    ensures Position(l, count) + l.width == l.header + count * l.width == Position(l, count + 1)
    ensures Position(l, count) == l.header + (count - 1) * l.width
  {
    assert (count - 1) * l.width + l.width == count * l.width;
  }

  /** Records are read from the part of the file they lie in. */
  lemma {:induction false} RowsOf(l: Layout, file: seq<Raw>, file1: seq<Raw>, count: nat)
    requires |file| >= l.header + count * l.width && |file1| >= l.header + count * l.width
    requires file[..l.header + count * l.width] == file1[..l.header + count * l.width]
    ensures Rows(l, file, count) == Rows(l, file1, count)
  {
    if count > 0 {
      Spans(l, count);
      var pos, end := Position(l, count), l.header + count * l.width;
      assert file[..pos] == file[..end][..pos] == file1[..end][..pos] == file1[..pos];
      assert file[pos..end] == file[..end][pos..] == file1[..end][pos..] == file1[pos..end];
      RowsOf(l, file, file1, count - 1);
    }
  }

  /** The file with one record more, and the file cut back to one record less. */
  function Grown(l: Layout, file: seq<Raw>, count: nat, r: Record): seq<Raw>
    requires FileOk(l, file, count)
  {
    Spans(l, count + 1);
    Write(file, Position(l, count + 1), if l.endless then r else r + [END_OF_FILE])
  }

  function Cut(l: Layout, file: seq<Raw>, count: nat): seq<Raw>
    requires |file| >= l.header + count * l.width
  {
    Spans(l, count + 1);
    var short := file[..Position(l, count + 1)];
    if l.endless then short else Write(short, Position(l, count + 1), [END_OF_FILE])
  }

  lemma {:induction false} GrownRows(l: Layout, file: seq<Raw>, count: nat, r: Record)
    requires FileOk(l, file, count) && |r| == l.width
    ensures FileOk(l, Grown(l, file, count, r), count + 1)
    ensures Rows(l, Grown(l, file, count, r), count + 1) == Rows(l, file, count) + [r]
  {
    Spans(l, count + 1);
    var pos := Position(l, count + 1);
    var file1 := Grown(l, file, count, r);
    assert file1[..pos] == file[..pos];
    assert file1[pos..pos + l.width] == r;
    RowsOf(l, file, file1, count);
  }

  lemma {:induction false} CutRows(l: Layout, file: seq<Raw>, count: nat)
    requires |file| >= l.header + count * l.width
    ensures FileOk(l, Cut(l, file, count), count)
    ensures Rows(l, Cut(l, file, count), count) == Rows(l, file, count)
  {
    Spans(l, count + 1);
    RowsOf(l, file, Cut(l, file, count), count);
  }

  /** Cutting off the record that was just added gives back the file, byte for byte. */
  lemma {:induction false} CutGrown(l: Layout, file: seq<Raw>, count: nat, r: Record)
    requires FileOk(l, file, count) && |r| == l.width
    ensures |Grown(l, file, count, r)| >= l.header + count * l.width
    ensures Cut(l, Grown(l, file, count, r), count) == file
  {
    Spans(l, count + 1);
    var pos := Position(l, count + 1);
    assert Grown(l, file, count, r)[..pos] == file[..pos];
    assert file == if l.endless then file[..pos] else file[..pos] + [END_OF_FILE];
  }

  // ----- the memos -----

  /** A memo write that fails, and how: `Refused` leaves the field alone and lets the append go on. */
  datatype MemoFault = MemoFault(at: nat, rc: Rc)

  datatype Memos = Memos(rc: Rc, record: Record, blocks: seq<seq<Raw>>)

  ghost function WriteMemos(l: Layout, contents: seq<seq<Raw>>, k: nat, r: Record, blocks: seq<seq<Raw>>,
                            fault: Option<MemoFault>): (m: Memos)
    requires FieldsOk(l) && |contents| == |l.memos| && k <= |l.memos| && |r| == l.width
    ensures |m.record| == l.width && m.rc in {Success, Failed}
    decreases |l.memos| - k
  {
    if k == |l.memos| then Memos(Success, r, blocks)
    else if contents[k] != [] then
      if fault.Some? && fault.value.at == k then
        Memos(if fault.value.rc == Refused then Success else Failed, r, blocks)
      else
        WriteMemos(l, contents, k + 1, Splice(r, l.memos[k], l.idBytes(k, |blocks| + 1)), blocks + [contents[k]], fault)
    else
      WriteMemos(l, contents, k + 1, if l.endless && l.isNull(r, k) then r else Splice(r, l.memos[k], l.blankId(k)),
                 blocks, fault)
  }

  lemma {:induction false} SpliceAlike(l: Layout, r: Record, k: nat, bytes: Record)
    requires LayoutOk(l) && k < |l.memos| && |r| == l.width && |bytes| == l.memos[k].len
    ensures |Splice(r, l.memos[k], bytes)| == l.width && Alike(l, r, Splice(r, l.memos[k], bytes))
  {
  }

  lemma {:induction false} AlikeAll(l: Layout, p: Record, q: Record, r: Record)
    requires Alike(l, p, q) && Alike(l, q, r)
    ensures Alike(l, p, r)
  {
  }

  lemma {:induction false} AlikeSelf(l: Layout, r: Record)
    ensures Alike(l, r, r)
  {
  }

  /** Writing the memos changes no key and no filter. */
  lemma {:induction false} MemosBlind(l: Layout, contents: seq<seq<Raw>>, k: nat, r: Record, blocks: seq<seq<Raw>>,
                                      fault: Option<MemoFault>)
    requires LayoutOk(l) && |contents| == |l.memos| && k <= |l.memos| && |r| == l.width
    ensures Alike(l, r, WriteMemos(l, contents, k, r, blocks, fault).record)
    decreases |l.memos| - k
  {
    hide TagsBlind, Alike;
    if k == |l.memos| || (contents[k] != [] && fault.Some? && fault.value.at == k) {
      AlikeSelf(l, r);
      return;
    }
    var bytes := if contents[k] != [] then l.idBytes(k, |blocks| + 1) else l.blankId(k);
    assert |bytes| == l.memos[k].len;
    SpliceAlike(l, r, k, bytes);
    var kept := contents[k] == [] && l.endless && l.isNull(r, k);
    var r1 := if kept then r else Splice(r, l.memos[k], bytes);
    var blocks1 := if contents[k] != [] then blocks + [contents[k]] else blocks;
    MemosBlind(l, contents, k + 1, r1, blocks1, fault);
    AlikeSelf(l, r);
    AlikeAll(l, r, r1, WriteMemos(l, contents, k + 1, r1, blocks1, fault).record);
  }

  ghost predicate Apart(f: MemoField, g: MemoField) {
    f.offset + f.len <= g.offset || g.offset + g.len <= f.offset
  }

  function FieldOf(r: Record, f: MemoField): Record
    requires f.offset + f.len <= |r|
  {
    r[f.offset..f.offset + f.len]
  }

  lemma {:induction false} SpliceField(r: Record, f: MemoField, bytes: Record, g: MemoField)
    requires f.offset + f.len <= |r| && g.offset + g.len <= |r| && |bytes| == f.len
    ensures |Splice(r, f, bytes)| == |r| && FieldOf(Splice(r, f, bytes), f) == bytes
    ensures Apart(f, g) ==> FieldOf(Splice(r, f, bytes), g) == FieldOf(r, g)
  {
  }

  /** The field `k` of the record leads to the contents of memo `k`. */
  ghost predicate Leads(l: Layout, m: Memos, k: nat, content: seq<Raw>)
    requires FieldsOk(l) && k < |l.memos| && |m.record| == l.width
  {
    exists id: nat ::
      1 <= id <= |m.blocks| && m.blocks[id - 1] == content && FieldOf(m.record, l.memos[k]) == l.idBytes(k, id)
  }

  /** The numbers up to `n` are written in different ways into the memo field `k`. */
  ghost predicate Tells(l: Layout, k: nat, n: nat) {
    forall i, j :: 1 <= i < j <= n ==> l.idBytes(k, i) != l.idBytes(k, j)
  }

  /** When no write fails, every memo is read back from its field: the field holds a number in range, and
      whatever number in range its bytes are read as, the memo stored under it is the one written. */
  lemma {:induction false} MemosFound(l: Layout, contents: seq<seq<Raw>>, r: Record, blocks: seq<seq<Raw>>, k: nat)
    requires FieldsOk(l) && |contents| == |l.memos| && |r| == l.width && k < |l.memos| && contents[k] != []
    requires AllApart(l)
    requires Tells(l, k, |WriteMemos(l, contents, 0, r, blocks, None).blocks|)
    ensures var m := WriteMemos(l, contents, 0, r, blocks, None);
            var field := FieldOf(m.record, l.memos[k]);
            && m.rc == Success && blocks <= m.blocks
            && (exists id :: 1 <= id <= |m.blocks| && field == l.idBytes(k, id))
            && (forall id :: 1 <= id <= |m.blocks| && field == l.idBytes(k, id) ==> m.blocks[id - 1] == contents[k])
  {
    hide WriteMemos, FieldOf;
    MemosLead(l, contents, 0, r, blocks);
    var m := WriteMemos(l, contents, 0, r, blocks, None);
    var id: nat :| 1 <= id <= |m.blocks| && m.blocks[id - 1] == contents[k]
                   && FieldOf(m.record, l.memos[k]) == l.idBytes(k, id);
    forall other | 1 <= other <= |m.blocks| && FieldOf(m.record, l.memos[k]) == l.idBytes(k, other)
      ensures other == id
    {
      assert l.idBytes(k, other) == l.idBytes(k, id);
    }
  }

  /** The byte at `p` is not part of a memo field. */
  ghost predicate OutsideMemos(l: Layout, p: nat) {
    forall j :: 0 <= j < |l.memos| ==> p < l.memos[j].offset || l.memos[j].offset + l.memos[j].len <= p
  }

  /** Every other byte of the record stays; the field of an empty memo is filled with its blank, or, where the file
      has no end mark and the field may be null, left alone; and from a memo that cannot be written on nothing
      changes. */
  lemma {:induction false} MemosRest(l: Layout, contents: seq<seq<Raw>>, k: nat, r: Record, blocks: seq<seq<Raw>>,
                                     fault: Option<MemoFault>)
    requires FieldsOk(l) && |contents| == |l.memos| && k <= |l.memos| && |r| == l.width
    requires AllApart(l)
    ensures var m := WriteMemos(l, contents, k, r, blocks, fault);
            && (forall p :: 0 <= p < l.width && OutsideMemos(l, p) ==> m.record[p] == r[p])
            && (forall j :: 0 <= j < k ==> FieldOf(m.record, l.memos[j]) == FieldOf(r, l.memos[j]))
    ensures var m := WriteMemos(l, contents, k, r, blocks, fault);
            forall j :: k <= j < |l.memos| && contents[j] == [] && !Halts(contents, k, j, fault) ==>
              || FieldOf(m.record, l.memos[j]) == l.blankId(j)
              || (&& l.endless && (exists q :: l.isNull(q, j))
                  && FieldOf(m.record, l.memos[j]) == FieldOf(r, l.memos[j]))
    ensures var m := WriteMemos(l, contents, k, r, blocks, fault);
            forall j :: k <= j < |l.memos| && Halts(contents, k, j, fault) ==>
              && FieldOf(m.record, l.memos[j]) == FieldOf(r, l.memos[j])
              && m.rc == if fault.value.rc == Refused then Success else Failed
    decreases |l.memos| - k
  {
    hide Splice, FieldOf, Apart, OutsideMemos;
    if k < |l.memos| && !(contents[k] != [] && fault.Some? && fault.value.at == k) {
      var bytes := if contents[k] != [] then l.idBytes(k, |blocks| + 1) else l.blankId(k);
      var kept := contents[k] == [] && l.endless && l.isNull(r, k);
      var r1 := if kept then r else Splice(r, l.memos[k], bytes);
      var blocks1 := if contents[k] != [] then blocks + [contents[k]] else blocks;
      SpliceField(r, l.memos[k], bytes, l.memos[k]);
      MemosRest(l, contents, k + 1, r1, blocks1, fault);
      var m := WriteMemos(l, contents, k, r, blocks, fault);
      assert m == WriteMemos(l, contents, k + 1, r1, blocks1, fault);
      forall j | 0 <= j < |l.memos| && j != k ensures FieldOf(r1, l.memos[j]) == FieldOf(r, l.memos[j]) {
        ApartFlips(l.memos[k], l.memos[j]);
        SpliceField(r, l.memos[k], bytes, l.memos[j]);
      }
      forall p | 0 <= p < l.width && OutsideMemos(l, p) ensures r1[p] == r[p] {
        SpliceOutside(l, r, k, bytes, p);
      }
    }
  }

  lemma {:induction false} NoFaults(l: Layout, contents: seq<seq<Raw>>, r: Record, blocks: seq<seq<Raw>>)
    requires FieldsOk(l) && |contents| == |l.memos| && |r| == l.width
    ensures WriteMemos(l, contents, 0, r, blocks, None).rc == Success
  {
    NoFaultFrom(l, contents, 0, r, blocks);
  }

  lemma {:induction false} NoFaultFrom(l: Layout, contents: seq<seq<Raw>>, k: nat, r: Record, blocks: seq<seq<Raw>>)
    requires FieldsOk(l) && |contents| == |l.memos| && k <= |l.memos| && |r| == l.width
    ensures WriteMemos(l, contents, k, r, blocks, None).rc == Success
    decreases |l.memos| - k
  {
    hide Splice;
    if k < |l.memos| {
      var bytes := if contents[k] != [] then l.idBytes(k, |blocks| + 1) else l.blankId(k);
      SpliceLong(r, l.memos[k], bytes);
      var kept := contents[k] == [] && l.endless && l.isNull(r, k);
      NoFaultFrom(l, contents, k + 1, if kept then r else Splice(r, l.memos[k], bytes),
                  if contents[k] != [] then blocks + [contents[k]] else blocks);
    }
  }

  lemma {:induction false} SpliceLong(r: Record, f: MemoField, bytes: Record)
    requires f.offset + f.len <= |r| && |bytes| == f.len
    ensures |Splice(r, f, bytes)| == |r|
  {
  }

  /** A memo at or before `j` cannot be written. */
  predicate Halts(contents: seq<seq<Raw>>, k: nat, j: nat, fault: Option<MemoFault>) {
    fault.Some? && k <= fault.value.at <= j && fault.value.at < |contents| && contents[fault.value.at] != []
  }

  lemma {:induction false} ApartFlips(f: MemoField, g: MemoField)
    ensures Apart(f, g) <==> Apart(g, f)
  {
  }

  lemma {:induction false} SpliceOutside(l: Layout, r: Record, k: nat, bytes: Record, p: nat)
    requires FieldsOk(l) && k < |l.memos| && |r| == l.width && |bytes| == l.memos[k].len && p < l.width
    requires OutsideMemos(l, p)
    ensures |Splice(r, l.memos[k], bytes)| == l.width && Splice(r, l.memos[k], bytes)[p] == r[p]
  {
  }

  lemma {:induction false} MemosLead(l: Layout, contents: seq<seq<Raw>>, k: nat, r: Record, blocks: seq<seq<Raw>>)
    requires FieldsOk(l) && |contents| == |l.memos| && k <= |l.memos| && |r| == l.width
    requires AllApart(l)
    ensures var m := WriteMemos(l, contents, k, r, blocks, None);
            && m.rc == Success && blocks <= m.blocks
            && (forall j :: 0 <= j < k ==> FieldOf(m.record, l.memos[j]) == FieldOf(r, l.memos[j]))
            && (forall j :: k <= j < |l.memos| && contents[j] != [] ==> Leads(l, m, j, contents[j]))
    decreases |l.memos| - k
  {
    hide Splice, FieldOf, Leads;
    if k < |l.memos| {
      var bytes := if contents[k] != [] then l.idBytes(k, |blocks| + 1) else l.blankId(k);
      SpliceField(r, l.memos[k], bytes, l.memos[k]);
      var blocks1 := if contents[k] != [] then blocks + [contents[k]] else blocks;
      var r1 := if contents[k] == [] && l.endless && l.isNull(r, k) then r else Splice(r, l.memos[k], bytes);
      MemosLead(l, contents, k + 1, r1, blocks1);
      var m := WriteMemos(l, contents, k, r, blocks, None);
      assert m == WriteMemos(l, contents, k + 1, r1, blocks1, None);
      forall j | 0 <= j < k ensures FieldOf(m.record, l.memos[j]) == FieldOf(r, l.memos[j]) {
        SpliceField(r, l.memos[k], bytes, l.memos[j]);
      }
      if contents[k] != [] {
        Lead(l, m, k, |blocks| + 1, contents[k]);
      }
    }
  }

  ghost predicate AllApart(l: Layout) {
    forall i, j :: 0 <= i < j < |l.memos| ==> Apart(l.memos[i], l.memos[j])
  }

  /** What a record written with its memos holds: every field leads to its memo among the blocks, those stored before
      are as they were, and the bytes outside the memo fields are those of the buffer. */
  ghost predicate Stored(l: Layout, contents: seq<seq<Raw>>, r: Record, before: seq<seq<Raw>>, written: Record,
                         blocks: seq<seq<Raw>>)
  {
    && FieldsOk(l) && |contents| == |l.memos| && |r| == |written| == l.width && before <= blocks
    && (forall j :: 0 <= j < |l.memos| && contents[j] != [] ==>
          Leads(l, Memos(Success, written, blocks), j, contents[j]))
    && forall p :: 0 <= p < l.width && OutsideMemos(l, p) ==> written[p] == r[p]
  }

  lemma {:induction false} StoredIs(l: Layout, contents: seq<seq<Raw>>, r: Record, blocks: seq<seq<Raw>>)
    requires FieldsOk(l) && |contents| == |l.memos| && |r| == l.width && AllApart(l)
    ensures var m := WriteMemos(l, contents, 0, r, blocks, None);
            Stored(l, contents, r, blocks, m.record, m.blocks)
  {
    hide WriteMemos, Leads, OutsideMemos;
    var m := WriteMemos(l, contents, 0, r, blocks, None);
    MemosLead(l, contents, 0, r, blocks);
    MemosRest(l, contents, 0, r, blocks, None);
    assert m == Memos(Success, m.record, m.blocks);
  }

  lemma {:induction false} Lead(l: Layout, m: Memos, k: nat, id: nat, content: seq<Raw>)
    requires FieldsOk(l) && k < |l.memos| && |m.record| == l.width && 1 <= id <= |m.blocks|
    requires m.blocks[id - 1] == content && FieldOf(m.record, l.memos[k]) == l.idBytes(k, id)
    ensures Leads(l, m, k, content)
  {
  }

  // ----- a table -----

  /** What goes wrong in an append: the tag that fails, the memo write, the write of the record, and the
      update of the file's header. */
  datatype Faults = Faults(tag: Option<nat>, memo: Option<MemoFault>, data: Rc, header: bool)

  const NO_FAULTS := Faults(None, None, Success, false)

  class Table {
    const layout: Layout
    var file: seq<Raw>
    var numRecs: nat
    var entries: seq<multiset<Entry>>
    var blocks: seq<seq<Raw>>
    var record: array<Raw>
    var contents: seq<seq<Raw>>
    var recNum: int
    var recordChanged: bool
    var error: bool

    constructor (l: Layout, head: seq<Raw>)
      requires LayoutOk(l) && |head| == l.header
      ensures Valid() && layout == l && numRecs == 0 && Records() == [] && !error && fresh(record)
    {
      layout := l;
      file := if l.endless then head else head + [END_OF_FILE];
      numRecs, recNum, recordChanged, error := 0, 0, false, false;
      entries := Repeat(|l.tags|, multiset{});
      blocks := [];
      record := new Raw[l.width + 1];
      contents := Repeat(|l.memos|, []);
    }

    /** The pieces fit together; the last byte of the buffer is for the end mark. */
    ghost predicate Fitted()
      reads this, record
    {
      && LayoutOk(layout) && record.Length == layout.width + 1 && |contents| == |layout.memos|
      && |entries| == |layout.tags|
    }

    ghost predicate Shaped()
      reads this, record
    {
      Fitted() && FileOk(layout, file, numRecs)
    }

    ghost function Records(): seq<Record>
      reads this, record
      requires Shaped()
    {
      Rows(layout, file, numRecs)
    }

    function Buffer(): Record
      reads this, record
      requires record.Length == layout.width + 1
    {
      record[..layout.width]
    }

    /** Every tag holds what the records of the file have it hold. */
    ghost predicate Valid()
      reads this, record
    {
      Shaped() && forall i :: 0 <= i < |layout.tags| ==> TagOk(layout.tags[i], entries[i], Records())
    }

    /** Adds the record in the buffer to one tag. */
    method AddCalc(i: nat, fault: bool) returns (rc: Rc)
      requires Shaped() && i < |layout.tags| && recNum >= 1 && !error
      modifies this`entries, this`error
      ensures Shaped()
      ensures rc == if fault then Failed else AddRc(layout.tags[i], old(entries[i]), Buffer())
      ensures entries == if fault then old(entries)
                         else old(entries)[i := Added(layout.tags[i], old(entries[i]), Buffer(), recNum)]
      ensures error <==> rc == Failed
    {
      if fault {
        error := true;
        return Failed;
      }
      rc := AddRc(layout.tags[i], entries[i], Buffer());
      if rc == Failed {
        error := true;
      }
      entries := entries[i := Added(layout.tags[i], entries[i], Buffer(), recNum)];
    }

    /** Takes the key of the record in the buffer away from one tag, unless an error is pending. */
    method RemoveCalc(i: nat)
      requires Fitted() && i < |layout.tags| && recNum >= 0
      modifies this`entries
      ensures Fitted()
      ensures entries == if error then old(entries)
                         else old(entries)[i := Removed(layout.tags[i], old(entries[i]), Buffer(), recNum)]
    {
      if error {
        return;
      }
      entries := entries[i := Removed(layout.tags[i], entries[i], Buffer(), recNum)];
    }

    /** Takes the record away from the tags before `tagOn`, the last of them first. */
    method CancelIndexes(tagOn: nat)
      requires Shaped() && tagOn <= |layout.tags| && recNum >= 0
      modifies this`entries, this`recNum
      ensures Shaped() && recNum == 0
      ensures forall i :: 0 <= i < |layout.tags| ==>
                entries[i] == if i < tagOn && !error
                              then Removed(layout.tags[i], old(entries[i]), Buffer(), old(recNum)) else old(entries[i])
    {
      hide Removed, FieldsOk, TagsBlind, LayoutOk, FileOk;
      var j := tagOn;
      while j > 0
        invariant 0 <= j <= tagOn && Shaped() && recNum == old(recNum)
        invariant forall i :: 0 <= i < |layout.tags| ==>
                    entries[i] == if j <= i < tagOn && !error
                                  then Removed(layout.tags[i], old(entries[i]), Buffer(), recNum) else old(entries[i])
      {
        j := j - 1;
        RemoveCalc(j);
      }
      recNum := 0;
    }

    /** Undoes an update of the indexes, keeping the error that stopped it. */
    method AbandonIndexes(tagOn: nat, ghost before: seq<multiset<Entry>>)
      requires Shaped() && recNum == numRecs + 1 && tagOn <= |layout.tags| == |before|
      requires forall j :: 0 <= j < |layout.tags| ==> TagOk(layout.tags[j], before[j], Records())
      requires forall j :: 0 <= j < |layout.tags| ==>
                 entries[j] == if j < tagOn then Added(layout.tags[j], before[j], Buffer(), recNum) else before[j]
      modifies this`entries, this`error, this`recNum
      ensures Shaped() && entries == before && recNum == 0 && error == old(error)
    {
      hide FieldsOk, TagsBlind, FileOk, Added, AddRc, Removed, Kept, Repeated, TagOk;
      var saved := error;
      error := false;
      forall j | 0 <= j < tagOn
        ensures Removed(layout.tags[j], entries[j], Buffer(), recNum) == before[j]
      {
        RemoveAdded(layout.tags[j], before[j], Records(), Buffer());
      }
      CancelIndexes(tagOn);
      error := saved;
      assert entries == before;
    }

    /** Adds the record in the buffer to every tag, or to none if one of them will not have it. */
    method UpdateIndexes(fault: Option<nat>) returns (rc: Rc)
      requires Valid() && !error && recNum == numRecs + 1
      modifies this`entries, this`error, this`recNum
      ensures Shaped()
      ensures rc == Success <==> Accepted(layout, old(entries), Buffer(), fault)
      ensures rc == Success ==> entries == AllAdded(layout, old(entries), Buffer(), numRecs + 1)
      ensures rc == Success ==> recNum == old(recNum) && !error
      ensures rc != Success ==> rc in {Refused, Failed} && entries == old(entries) && recNum == 0
      ensures rc != Success ==> (error <==> rc == Failed)
      ensures Answers(layout.tags, old(Records()), Buffer(), fault, rc)
    {
      hide FieldsOk, TagsBlind, FileOk, Added, AddRc, Removed, Kept, Repeated, TagOk, Objects, Answers;
      ghost var rows, r0 := Records(), Buffer();
      var i := 0;
      while i < |layout.tags|
        invariant 0 <= i <= |layout.tags| && Shaped() && !error && recNum == numRecs + 1
        invariant forall j :: 0 <= j < i ==> entries[j] == Added(layout.tags[j], old(entries[j]), Buffer(), numRecs + 1)
        invariant forall j :: i <= j < |layout.tags| ==> entries[j] == old(entries[j])
        invariant forall j :: 0 <= j < i ==> Accepts(layout.tags[j], old(entries[j]), Buffer()) && fault != Some(j)
        invariant forall j :: 0 <= j < i ==> fault != Some(j) && !Objects(layout.tags[j], rows, r0)
      {
        TagObjects(layout.tags[i], entries[i], rows, r0);
        rc := AddCalc(i, fault == Some(i));
        if rc == Failed || rc == Refused {
          AnswersAt(layout.tags, rows, r0, fault, i, rc);
          AbandonIndexes(i, old(entries));
          return rc;
        }
        i := i + 1;
      }
      rc := Success;
      AnswersAt(layout.tags, rows, r0, fault, i, rc);
    }

    /** Puts the bytes of a memo field into the buffer. */
    method Assign(k: nat, bytes: Record)
      requires Shaped() && k < |layout.memos| && |bytes| == layout.memos[k].len
      modifies record
      ensures Shaped() && Buffer() == Splice(old(Buffer()), layout.memos[k], bytes)
    {
      hide TagsBlind, FileOk;
      var f := layout.memos[k];
      forall j | 0 <= j < f.len {
        record[f.offset + j] := bytes[j];
      }
      assert Buffer() == Splice(old(Buffer()), f, bytes);
    }

    /** Writes the memos and puts their places into the record. */
    method UpdateMemos(fault: Option<MemoFault>) returns (rc: Rc)
      requires Shaped() && !error
      modifies record, this`blocks, this`error
      ensures Shaped()
      ensures Memos(rc, Buffer(), blocks) == WriteMemos(layout, contents, 0, old(Buffer()), old(blocks), fault)
      ensures error <==> rc == Failed
    {
      hide TagsBlind, FileOk, Splice;
      ghost var whole := WriteMemos(layout, contents, 0, Buffer(), blocks, fault);
      var k := 0;
      while k < |layout.memos|
        invariant 0 <= k <= |layout.memos| && Shaped() && !error
        invariant whole == WriteMemos(layout, contents, k, Buffer(), blocks, fault)
      {
        if contents[k] != [] {
          if fault.Some? && fault.value.at == k {
            if fault.value.rc == Refused {
              break;
            }
            error := true;
            return Failed;
          }
          var newId := |blocks| + 1;
          blocks := blocks + [contents[k]];
          Assign(k, layout.idBytes(k, newId));
        } else if layout.endless {
          if !layout.isNull(Buffer(), k) {
            Assign(k, layout.blankId(k));
          }
        } else {
          Assign(k, layout.blankId(k));
        }
        k := k + 1;
      }
      rc := Success;
    }

    /** Writes the record at the end of the file. */
    method AppendData(fault: Rc) returns (rc: Rc)
      requires Shaped() && !error && record[layout.width] == END_OF_FILE && fault != Skipped
      modifies this`file, this`numRecs, this`recNum, this`error
      ensures Shaped() && rc == fault && (error <==> rc == Failed)
      ensures if rc == Success
              then file == Grown(layout, old(file), old(numRecs), Buffer()) && numRecs == old(numRecs) + 1
              else file == old(file) && numRecs == old(numRecs)
      ensures recNum == if rc == Success then numRecs else old(recNum)
    {
      var count := numRecs;
      Spans(layout, count + 1);
      var pos := Position(layout, count + 1);
      var lenWrite := layout.width;
      if !layout.endless {
        lenWrite := lenWrite + 1;
      }
      if fault != Success {
        error := fault == Failed;
        return fault;
      }
      assert record[..lenWrite] == if layout.endless then Buffer() else Buffer() + [END_OF_FILE];
      GrownRows(layout, file, count, Buffer());
      file := Write(file, pos, record[..lenWrite]);
      numRecs := count + 1;
      recNum := numRecs;
      rc := Success;
    }

    method UpdateData(fault: Rc) returns (rc: Rc)
      requires Shaped() && !error && fault != Skipped
      modifies this`file, this`numRecs, this`recNum, this`recordChanged, this`error, record
      ensures Shaped() && rc == fault && (error <==> rc == Failed) && Buffer() == old(Buffer())
      ensures if rc == Success
              then file == Grown(layout, old(file), old(numRecs), Buffer()) && numRecs == old(numRecs) + 1
              else file == old(file) && numRecs == old(numRecs)
      ensures recNum == if rc == Success then numRecs else old(recNum)
      ensures recordChanged == if rc == Success then false else old(recordChanged)
    {
      record[layout.width] := END_OF_FILE;
      assert Buffer() == old(Buffer());
      rc := AppendData(fault);
      if rc != Success {
        return;
      }
      recordChanged := false;
      record[layout.width] := 0;
      assert Buffer() == old(Buffer());
    }

    /** The memos as the append writes them. */
    ghost function MemosToWrite(fault: Option<MemoFault>): Memos
      reads this, record
      requires Shaped()
    {
      WriteMemos(layout, contents, 0, Buffer(), blocks, fault)
    }

    /** Nothing an append is about has changed. */
    twostate predicate Untouched()
      reads this, record
      requires old(Shaped()) && Shaped()
    {
      && file == old(file) && numRecs == old(numRecs) && entries == old(entries)
    }

    /** The stages of an append, and what a failing stage makes of the ones before it. */
    method DoAppend(faults: Faults) returns (rc: Rc)
      requires Valid() && !error && recNum == numRecs + 1 && faults.data != Skipped
      modifies this`file, this`numRecs, this`entries, this`blocks, this`recNum, this`recordChanged, this`error, record
      ensures Shaped()
      ensures !Accepted(layout, old(entries), old(Buffer()), faults.tag) ==> rc in {Refused, Failed} && Untouched()
      ensures Accepted(layout, old(entries), old(Buffer()), faults.tag)
              <==> !Stopped(layout.tags, old(Records()), old(Buffer()), faults.tag)
      ensures Stopped(layout.tags, old(Records()), old(Buffer()), faults.tag) ==>
                Answers(layout.tags, old(Records()), old(Buffer()), faults.tag, rc)
      ensures Accepted(layout, old(entries), old(Buffer()), faults.tag) ==>
                blocks == old(MemosToWrite(faults.memo)).blocks
      ensures Accepted(layout, old(entries), old(Buffer()), faults.tag) ==>
                var m := old(MemosToWrite(faults.memo));
                if m.rc == Success && faults.data == Success then
                  && rc == (if faults.header then Failed else Success)
                  && file == Grown(layout, old(file), old(numRecs), m.record) && numRecs == old(numRecs) + 1
                  && entries == AllAdded(layout, old(entries), old(Buffer()), numRecs)
                else
                  && rc == (if m.rc == Success then faults.data else Failed)
                  && file == old(file) && numRecs == old(numRecs)
                  && entries == if rc == Failed then AllAdded(layout, old(entries), old(Buffer()), numRecs + 1)
                                else old(entries)
      ensures rc == Success ==> recNum == numRecs
      ensures error <==> rc == Failed
    {
      hide FieldsOk, TagsBlind, FileOk, Added, AddRc, Removed, Kept, Repeated, TagOk, Accepted, WriteMemos, Splice;
      hide Stops, Stopped;
      ghost var rows, r0, entries0 := Records(), Buffer(), entries;
      rc := UpdateIndexes(faults.tag);
      if rc != Success {
        return;
      }
      rc := UpdateMemos(faults.memo);
      ghost var m := Memos(rc, Buffer(), blocks);
      if rc == Success {
        rc := UpdateData(faults.data);
      }
      if rc != Success {
        if !error {
          MemosBlind(layout, contents, 0, r0, old(blocks), faults.memo);
          forall j | 0 <= j < |layout.tags|
            ensures Removed(layout.tags[j], entries[j], Buffer(), recNum) == entries0[j]
          {
            RemoveAdded(layout.tags[j], entries0[j], rows, r0);
            AlikeRemoved(layout.tags[j], entries[j], r0, Buffer(), numRecs + 1);
          }
        }
        CancelIndexes(|layout.tags|);
        if !error { assert entries == entries0; }
      } else if faults.header {
        error := true;
        rc := Failed;
      }
    }

    /** Appends the record in the buffer.  The tags agree with the file afterwards unless they took the
        record and then a memo or the record itself could not be written. */
    method Append(faults: Faults) returns (rc: Rc)
      requires Valid() && faults.data != Skipped
      modifies this`file, this`numRecs, this`entries, this`blocks, this`recNum, this`recordChanged, this`error, record
      ensures Shaped()
      ensures old(error) ==> rc == Failed && Untouched() && recNum == old(recNum)
      ensures !old(error) && !Accepted(layout, old(entries), old(Buffer()), faults.tag) ==>
                rc in {Refused, Failed} && Untouched() && recNum == old(recNum)
      ensures !old(error) && Accepted(layout, old(entries), old(Buffer()), faults.tag) ==>
                var m := old(MemosToWrite(faults.memo));
                && rc == (if m.rc == Failed || (faults.data == Success && faults.header) then Failed else faults.data)
                && blocks == m.blocks
                && Records() == if m.rc == Success && faults.data == Success then old(Records()) + [m.record]
                                else old(Records())
      ensures error <==> old(error) || rc == Failed
      ensures rc == Success ==> recNum == numRecs
      ensures !old(error) && Stopped(layout.tags, old(Records()), old(Buffer()), faults.tag) ==>
                Answers(layout.tags, old(Records()), old(Buffer()), faults.tag, rc)
      ensures !old(error) ==>
                (Accepted(layout, old(entries), old(Buffer()), faults.tag)
                 <==> !Stopped(layout.tags, old(Records()), old(Buffer()), faults.tag))
      ensures Valid() <==>
                old(error) || !Stranded(layout, old(entries), old(Buffer()), faults, old(MemosToWrite(faults.memo)).rc)
    {
      hide FieldsOk, TagsBlind, FileOk, Added, AddRc, Removed, Kept, Repeated, TagOk, Accepted, WriteMemos, Splice;
      hide Takes, Objects, Stopped, Stops, Answers;
      ghost var rows, r0, entries0, m := Records(), Buffer(), entries, MemosToWrite(faults.memo);
      if error {
        return Failed;
      }
      recordChanged := false;
      var oldRecNum := recNum;
      recNum := numRecs + 1;
      rc := DoAppend(faults);
      if rc != Success {
        recNum := oldRecNum;
      }
      if Accepted(layout, entries0, r0, faults.tag) {
        if m.rc == Success && faults.data == Success {
          GrownRows(layout, old(file), old(numRecs), m.record);
          MemosBlind(layout, contents, 0, r0, old(blocks), faults.memo);
          forall i | 0 <= i < |layout.tags| ensures TagOk(layout.tags[i], entries[i], Records()) {
            AcceptedAt(layout, entries0, r0, faults.tag, i);
            StillOk(layout.tags[i], entries0[i], rows, r0, m.record);
          }
        } else if rc == Failed {
          forall i | 0 <= i < |layout.tags|
            ensures TagOk(layout.tags[i], entries[i], rows) <==> !Takes(layout.tags[i], entries0[i], r0)
          {
            TakenTooMuch(layout.tags[i], entries0[i], rows, r0);
          }
        }
      }
    }

    /** An append in which no write fails succeeds if and only if no tag that refuses or reports repeated keys, and
        admits the record, has an admitted record with its key; otherwise the first such tag decides the answer. The
        record written is the one in the buffer, with every memo stored and found from its field. */
    method AppendClean() returns (rc: Rc)
      requires Valid() && !error
      modifies this`file, this`numRecs, this`entries, this`blocks, this`recNum, this`recordChanged, this`error, record
      ensures Valid()
      ensures var rows, r := old(Records()), old(Buffer());
              && (rc == Success <==> forall i :: 0 <= i < |layout.tags| ==> !Objects(layout.tags[i], rows, r))
              && Records() == (if rc == Success then rows + [old(MemosToWrite(None)).record] else rows)
              && forall i: nat :: i < |layout.tags| && Objects(layout.tags[i], rows, r)
                                  && (forall j :: 0 <= j < i ==> !Objects(layout.tags[j], rows, r)) ==>
                   rc == if layout.tags[i].unique == Complains then Failed else Refused
      ensures var rows := old(Records());
              rc == Success && AllApart(layout) ==>
                Stored(layout, contents, old(Buffer()), old(blocks), Records()[|rows|], blocks)
    {
      hide FieldsOk, TagsBlind, FileOk, Added, AddRc, Removed, Kept, Repeated, TagOk, Accepted, WriteMemos, Splice;
      hide Objects, Stored;
      if AllApart(layout) { StoredIs(layout, contents, Buffer(), blocks); }
      NoFaults(layout, contents, Buffer(), blocks);
      StoppedIs(layout.tags, Records(), Buffer());
      rc := Append(NO_FAULTS);
    }

    /** Takes the record in the buffer away from every tag, the first of them first. */
    method RemoveFromTags()
      requires Fitted() && !error && recNum >= 0
      modifies this`entries
      ensures Fitted()
      ensures forall j :: 0 <= j < |layout.tags| ==>
                entries[j] == Removed(layout.tags[j], old(entries[j]), Buffer(), recNum)
    {
      hide Removed, FieldsOk, TagsBlind, LayoutOk;
      var i := 0;
      while i < |layout.tags|
        invariant 0 <= i <= |layout.tags| && Fitted()
        invariant forall j :: 0 <= j < |layout.tags| ==>
                    entries[j] == if j < i then Removed(layout.tags[j], old(entries[j]), Buffer(), recNum)
                                  else old(entries[j])
      {
        RemoveCalc(i);
        i := i + 1;
      }
    }

    /** Takes the last record away; the buffer still holds it. */
    method Unappend(header: bool) returns (rc: Rc)
      requires Valid() && numRecs > 0 && Alike(layout, Buffer(), Records()[numRecs - 1])
      modifies this`file, this`numRecs, this`entries, this`contents, this`recNum, this`recordChanged, this`error, record
      ensures Valid()
      ensures old(error) ==> rc == Failed && Untouched()
      ensures !old(error) ==>
                && rc == (if header then Failed else Success)
                && numRecs == old(numRecs) - 1 && file == Cut(layout, old(file), numRecs)
                && Records() == old(Records())[..numRecs]
                && recNum == -1 && !recordChanged && Buffer() == layout.blank
    {
      hide FieldsOk, TagsBlind, FileOk, Added, AddRc, Removed, Kept, Repeated, TagOk, Alike;
      if error {
        return Failed;
      }
      ghost var rows, r0, entries0 := Records(), Buffer(), entries;
      recordChanged := true;
      recNum := numRecs;
      numRecs := numRecs - 1;
      RemoveFromTags();
      AllBefore(layout, entries0, entries, rows, r0);
      assert FileOk(layout, file, numRecs + 1);
      contents := Repeat(|contents|, []);
      record[layout.width] := END_OF_FILE;
      UnappendData();
      assert Records() == rows[..|rows| - 1];
      rc := Success;
      if header {
        error := true;
        rc := Failed;
      }
      recNum := -1;
      recordChanged := false;
      BlankRecord();
    }

    method BlankRecord()
      requires Fitted()
      modifies record
      ensures Buffer() == layout.blank
    {
      forall k | 0 <= k < layout.width {
        record[k] := layout.blank[k];
      }
      assert Buffer() == layout.blank;
    }

    /** Cuts the file off behind the records that are left. */
    method UnappendData()
      requires Fitted() && FileOk(layout, file, numRecs + 1)
      modifies this`file
      ensures Shaped() && file == Cut(layout, old(file), numRecs)
      ensures Records() == Rows(layout, old(file), numRecs + 1)[..numRecs]
    {
      Spans(layout, numRecs + 1);
      CutRows(layout, file, numRecs);
      var pos := Position(layout, numRecs + 1);
      file := file[..pos];
      if !layout.endless {
        file := Write(file, pos, [END_OF_FILE]);
      }
    }
  }

  lemma {:induction false} AlikeAt(l: Layout, r: Record, q: Record, i: nat)
    requires Alike(l, r, q) && i < |l.tags|
    ensures l.tags[i].key(r) == l.tags[i].key(q)
  {
  }

  /** A tag that would get an entry for the record. */
  ghost predicate Takes(tag: TagDef, entries: multiset<Entry>, r: Record) {
    tag.filter(r) && AddRc(tag, entries, r) == Success
  }

  /** Every tag went along, then the memos or the data reported an error, and the error kept the entries
      from being removed again. */
  ghost predicate Stranded(l: Layout, entries: seq<multiset<Entry>>, r: Record, faults: Faults, memos: Rc)
    requires |entries| == |l.tags|
  {
    && Accepted(l, entries, r, faults.tag) && (memos == Failed || faults.data == Failed)
    && exists i :: 0 <= i < |l.tags| && Takes(l.tags[i], entries[i], r)
  }

  /** One tag and a write that fails: the table is empty and the tag is not. */
  method StrandsAnEntry() returns (t: Table, rc: Rc)
    ensures rc == Failed && t.Shaped() && t.Records() == [] && !t.Valid()
    ensures |t.entries| == 1 && t.entries[0] != multiset{}
  {
    var tag := TagDef((r: Record) => r, (r: Record) => true, Repeats);
    var l := Layout(0, 1, true, [tag], [], (r: Record, k: nat) => false, (k: nat, id: nat) => [], (k: nat) => [], [0]);
    t := new Table(l, []);
    assert Takes(tag, t.entries[0], t.Buffer());
    rc := t.Append(Faults(None, None, Failed, false));
  }

  lemma {:induction false} TagObjects(tag: TagDef, entries: multiset<Entry>, rows: seq<Record>, r: Record)
    requires TagOk(tag, entries, rows)
    ensures AddRc(tag, entries, r) == Failed <==> Objects(tag, rows, r) && tag.unique == Complains
    ensures AddRc(tag, entries, r) == Refused <==> Objects(tag, rows, r) && tag.unique == Refuses
    ensures Objects(tag, rows, r) ==> tag.unique in {Complains, Refuses}
  {
    AddObjects(tag, rows, r);
  }

  lemma {:induction false} AcceptedAt(l: Layout, entries: seq<multiset<Entry>>, r: Record, fault: Option<nat>, i: nat)
    requires |entries| == |l.tags| && Accepted(l, entries, r, fault) && i < |l.tags|
    ensures Accepts(l.tags[i], entries[i], r)
  {
  }

  lemma {:induction false} StillOk(tag: TagDef, entries: multiset<Entry>, rows: seq<Record>, r: Record, q: Record)
    requires TagOk(tag, entries, rows) && Accepts(tag, entries, r)
    requires tag.key(r) == tag.key(q) && tag.filter(r) == tag.filter(q)
    ensures TagOk(tag, Added(tag, entries, r, |rows| + 1), rows + [q])
  {
    hide Kept, Repeated, HasKey, SameKey;
    Snoc(tag, rows, q);
    RepeatedSnoc(tag, rows, q);
    if tag.filter(q) { WillingToAdd(tag, rows, q); } else { Excluded(tag, rows, q); }
  }

  lemma {:induction false} TakenTooMuch(tag: TagDef, entries: multiset<Entry>, rows: seq<Record>, r: Record)
    requires TagOk(tag, entries, rows)
    ensures TagOk(tag, Added(tag, entries, r, |rows| + 1), rows) <==> !Takes(tag, entries, r)
  {
    hide Kept, Repeated, HasKey;
    assert |entries + multiset{Entry(tag.key(r), |rows| + 1)}| == |entries| + 1;
  }

  /** A tag that is right for some records is right without the last, once that is removed. */
  lemma {:induction false} OkBefore(tag: TagDef, entries: multiset<Entry>, rows: seq<Record>, r: Record)
    requires rows != [] && TagOk(tag, entries, rows) && tag.key(r) == tag.key(rows[|rows| - 1])
    ensures TagOk(tag, Removed(tag, entries, r, |rows|), rows[..|rows| - 1])
  {
    hide Kept, Repeated, HasKey, SameKey;
    var before, q := rows[..|rows| - 1], rows[|rows| - 1];
    assert rows == before + [q];
    RepeatedSnoc(tag, before, q);
    RemoveLast(tag, before, q);
  }

  /** And so for all tags, when the record is taken from each. */
  lemma {:induction false} AllBefore(l: Layout, entries: seq<multiset<Entry>>, after: seq<multiset<Entry>>,
                                     rows: seq<Record>, r: Record)
    requires rows != [] && Alike(l, r, rows[|rows| - 1]) && |entries| == |after| == |l.tags|
    requires forall j :: 0 <= j < |l.tags| ==> TagOk(l.tags[j], entries[j], rows)
    requires forall j :: 0 <= j < |l.tags| ==> after[j] == Removed(l.tags[j], entries[j], r, |rows|)
    ensures forall j :: 0 <= j < |l.tags| ==> TagOk(l.tags[j], after[j], rows[..|rows| - 1])
  {
    hide TagOk, Alike, Removed;
    forall j | 0 <= j < |l.tags| ensures TagOk(l.tags[j], after[j], rows[..|rows| - 1]) {
      AlikeAt(l, r, rows[|rows| - 1], j);
      OkBefore(l.tags[j], entries[j], rows, r);
    }
  }

  /** Taking back the append of a record restores the file byte for byte and every tag entry for entry. */
  lemma {:induction false} UnappendUndoes(l: Layout, file: seq<Raw>, rows: seq<Record>, entries: seq<multiset<Entry>>,
                                          r: Record, q: Record)
    requires FileOk(l, file, |rows|) && |entries| == |l.tags| && |q| == l.width && Alike(l, r, q)
    requires forall i :: 0 <= i < |l.tags| ==> TagOk(l.tags[i], entries[i], rows)
    ensures FileOk(l, Grown(l, file, |rows|, q), |rows| + 1) && Cut(l, Grown(l, file, |rows|, q), |rows|) == file
    ensures forall i :: 0 <= i < |l.tags| ==>
              Removed(l.tags[i], AllAdded(l, entries, r, |rows| + 1)[i], q, |rows| + 1) == entries[i]
  {
    hide Added, Removed, Kept, TagOk, FileOk, AllAdded;
    GrownRows(l, file, |rows|, q);
    CutGrown(l, file, |rows|, q);
    forall i | 0 <= i < |l.tags|
      ensures Removed(l.tags[i], AllAdded(l, entries, r, |rows| + 1)[i], q, |rows| + 1) == entries[i]
    {
      RemoveAdded(l.tags[i], entries[i], rows, r);
      AlikeRemoved(l.tags[i], AllAdded(l, entries, r, |rows| + 1)[i], r, q, |rows| + 1);
    }
  }

  lemma {:induction false} AlikeRemoved(tag: TagDef, entries: multiset<Entry>, r: Record, q: Record, rec: nat)
    requires tag.key(r) == tag.key(q)
    ensures Removed(tag, entries, r, rec) == Removed(tag, entries, q, rec)
  {
  }

  lemma {:induction false} RemoveAdded(tag: TagDef, entries: multiset<Entry>, rows: seq<Record>, r: Record)
    requires TagOk(tag, entries, rows)
    ensures Removed(tag, Added(tag, entries, r, |rows| + 1), r, |rows| + 1) == entries
    ensures Removed(tag, entries, r, |rows| + 1) == entries
  {
    hide Added, Repeated;
    Snoc(tag, rows, r);
    RemoveLast(tag, rows, r);
  }

  /** A tag that adds the record, or lets it pass without adding it. */
  ghost predicate Accepts(tag: TagDef, entries: multiset<Entry>, r: Record) {
    AddRc(tag, entries, r) in {Success, Skipped}
  }

  ghost predicate Accepted(l: Layout, entries: seq<multiset<Entry>>, r: Record, fault: Option<nat>)
    requires |entries| == |l.tags|
  {
    forall i :: 0 <= i < |l.tags| ==> Accepts(l.tags[i], entries[i], r) && fault != Some(i)
  }

  ghost function AllAdded(l: Layout, entries: seq<multiset<Entry>>, r: Record, rec: nat): (all: seq<multiset<Entry>>)
    requires |entries| == |l.tags|
    ensures |all| == |entries|
    ensures forall i :: 0 <= i < |l.tags| ==> all[i] == Added(l.tags[i], entries[i], r, rec)
  {
    AddedTo(l, entries, r, rec, |entries|)
  }

  ghost function AddedTo(l: Layout, entries: seq<multiset<Entry>>, r: Record, rec: nat,
                         n: nat): (all: seq<multiset<Entry>>)
    requires n <= |entries| == |l.tags|
    ensures |all| == n && forall i :: 0 <= i < n ==> all[i] == Added(l.tags[i], entries[i], r, rec)
  {
    if n == 0 then [] else AddedTo(l, entries, r, rec, n - 1) + [Added(l.tags[n - 1], entries[n - 1], r, rec)]
  }

  /** A tag holds the entries of these records, and has none repeated if it does not take repeated keys. */
  ghost predicate TagOk(tag: TagDef, entries: multiset<Entry>, rows: seq<Record>) {
    entries == Kept(tag, rows) && (tag.unique in {Refuses, Complains} ==> !Repeated(tag, rows))
  }
}
