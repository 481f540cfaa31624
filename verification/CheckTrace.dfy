/** The trace checker and balancer: it rejects inconsistent traces, and appends a free request
    for every id that is still live at the end. */
module CheckTrace {
  import opened Options
  import opened Trace

  /** A trace line, split into its tokens.  A blank line has no command. */
  datatype Line = Line(cmd: string, id: string, size: int)

  /** Perl takes the empty string and "0" for false. */
  predicate Blank(l: Line) {
    l.cmd == "" || l.cmd == "0"
  }

  function FreeLine(id: string): Line {
    Line("f", id, 0)
  }

  // ---------- what a trace means ----------

  predicate Request(l: Line) {
    l.cmd == "a" || l.cmd == "r" || l.cmd == "f"
  }

  function LiveNext(live: set<string>, l: Line): set<string> {
    if l.cmd == "a" then live + {l.id} else if l.cmd == "f" then live - {l.id} else live
  }

  function LiveAfter(lines: seq<Line>): set<string> {
    if lines == [] then {} else LiveNext(LiveAfter(lines[..|lines| - 1]), lines[|lines| - 1])
  }

  /** Allocations name dead ids, reallocations and frees live ones. */
  predicate LineOk(live: set<string>, l: Line) {
    if l.cmd == "a" then l.id !in live else l.id in live
  }

  ghost predicate Consistent(lines: seq<Line>) {
    forall k :: 0 <= k < |lines| ==> LineOk(LiveAfter(lines[..k]), lines[k])
  }

  function NonBlank(lines: seq<Line>): seq<Line> {
    if lines == [] then []
    else
      var init, last := NonBlank(lines[..|lines| - 1]), lines[|lines| - 1];
      if Blank(last) then init else init + [last]
  }

  /** How many of the first `n` lines have a command that counts as true. */
  function CountLines(lines: seq<Line>, n: nat): nat
    requires n <= |lines|
  {
    if n == 0 then 0
    else CountLines(lines, n - 1) + (if lines[n - 1].cmd == "" || lines[n - 1].cmd == "0" then 0 else 1)
  }

  /** Exactly those lines are kept, in their order. */
  lemma {:induction false} NonBlankIs(lines: seq<Line>, n: nat)
    requires n <= |lines|
    ensures |NonBlank(lines[..n])| == CountLines(lines, n)
    ensures forall k :: 0 <= k < n && lines[k].cmd != "" && lines[k].cmd != "0" ==>
              CountLines(lines, k) < CountLines(lines, n)
              && NonBlank(lines[..n])[CountLines(lines, k)] == lines[k]
  {
    if n == 0 {
      assert lines[..0] == [];
    } else {
      NonBlankIs(lines, n - 1);
      assert lines[..n][..n - 1] == lines[..n - 1];
    }
  }

  // ---------- the scan ----------

  /** One nonblank line against the hash of outstanding requests; None where the script dies.
      The tests against "f" can never succeed, because a free deletes its entry. */
  function ScanLine(hash: map<string, string>, l: Line): Option<map<string, string>> {
    if l.cmd == "r" then
      if l.id !in hash || hash[l.id] == "" || hash[l.id] == "0" then None else Some(hash)
    else if l.cmd == "a" && l.id in hash && hash[l.id] == "a" then None
    else if l.cmd == "a" && l.id in hash && hash[l.id] == "f" then None
    else if l.cmd == "f" && l.id !in hash then None
    else if l.cmd == "f" then Some(hash - {l.id})
    else Some(hash[l.id := l.cmd])
  }

  function Scan(lines: seq<Line>): Option<map<string, string>> {
    if lines == [] then Some(map[])
    else
      var before := Scan(lines[..|lines| - 1]);
      if before.None? || Blank(lines[|lines| - 1]) then before else ScanLine(before.value, lines[|lines| - 1])
  }

  lemma ScanNext(lines: seq<Line>, k: int)
    requires 0 <= k < |lines|
    ensures var before := Scan(lines[..k]);
            Scan(lines[..k + 1]) == if before.None? || Blank(lines[k]) then before else ScanLine(before.value, lines[k])
    ensures NonBlank(lines[..k + 1]) == NonBlank(lines[..k]) + (if Blank(lines[k]) then [] else [lines[k]])
  {
    assert lines[..k + 1][..k] == lines[..k];
  }

  /** Once the script has died it stays dead. */
  lemma {:induction false} ScanDead(lines: seq<Line>, k: int)
    requires 0 <= k <= |lines| && Scan(lines[..k]).None?
    ensures Scan(lines).None?
    decreases |lines| - k
  {
    if k < |lines| {
      ScanNext(lines, k);
      ScanDead(lines, k + 1);
    } else {
      assert lines[..k] == lines;
    }
  }

  // ---------- what the scan means ----------

  /** A line that leaves a mark for its id. */
  predicate Marks(l: Line, id: string) {
    l.cmd != "" && l.cmd != "0" && l.cmd != "r" && l.id == id
  }

  /** Line `k` is the last that leaves a mark for `id`. */
  ghost predicate LastMark(lines: seq<Line>, id: string, k: int) {
    0 <= k < |lines| && Marks(lines[k], id) && forall j :: k < j < |lines| ==> !Marks(lines[j], id)
  }

  /** The last line that leaves a mark for `id` has command `cmd`, and does not free. */
  ghost predicate Held(lines: seq<Line>, id: string, cmd: string) {
    cmd != "f" && exists k :: LastMark(lines, id, k) && lines[k].cmd == cmd
  }

  /** Line `n` reallocates or frees an id for which nothing is held, or allocates one that an
      allocation holds. */
  ghost predicate Fault(lines: seq<Line>, n: int)
    requires 0 <= n < |lines|
  {
    var l, before := lines[n], lines[..n];
    || ((l.cmd == "r" || l.cmd == "f") && forall cmd :: !Held(before, l.id, cmd))
    || (l.cmd == "a" && Held(before, l.id, "a"))
  }

  lemma HeldNext(lines: seq<Line>, l: Line, id: string, cmd: string)
    ensures Held(lines + [l], id, cmd)
            <==> if Marks(l, id) then cmd == l.cmd && cmd != "f" else Held(lines, id, cmd)
  {
    var r := lines + [l];
    if Marks(l, id) {
      assert LastMark(r, id, |lines|);
    } else {
      assert forall j :: 0 <= j < |r| ==> r[j] == if j < |lines| then lines[j] else l;
      forall k
        ensures LastMark(r, id, k) <==> LastMark(lines, id, k)
      {
        if LastMark(r, id, k) {
          assert forall j :: k < j < |lines| ==> !Marks(r[j], id);
        }
      }
    }
  }

  ghost predicate HashIs(hash: map<string, string>, lines: seq<Line>) {
    forall id, cmd :: (id in hash && hash[id] == cmd) <==> Held(lines, id, cmd)
  }

  lemma HashNext(hash: map<string, string>, lines: seq<Line>, l: Line)
    requires HashIs(hash, lines)
    requires forall id :: id in hash ==> hash[id] != "" && hash[id] != "0" && hash[id] != "f" && hash[id] != "r"
    ensures Blank(l) ==> HashIs(hash, lines + [l])
    ensures !Blank(l) && ScanLine(hash, l).Some? ==>
              && HashIs(ScanLine(hash, l).value, lines + [l])
              && forall id :: id in ScanLine(hash, l).value ==>
                   var c := ScanLine(hash, l).value[id]; c != "" && c != "0" && c != "f" && c != "r"
    ensures !Blank(l) ==> (ScanLine(hash, l).None? <==> Fault(lines + [l], |lines|))
  {
    hide Held;
    forall id, cmd
      ensures Held(lines + [l], id, cmd)
              <==> if Marks(l, id) then cmd == l.cmd && cmd != "f" else Held(lines, id, cmd)
    {
      HeldNext(lines, l, id, cmd);
    }
    assert (lines + [l])[..|lines|] == lines;
    assert l.id in hash <==> exists cmd :: Held(lines, l.id, cmd) by {
      if l.id in hash {
        assert Held(lines, l.id, hash[l.id]);
      }
    }
  }

  /** On every trace, whatever its commands: the script dies in the scan exactly if some line is at
      fault, and otherwise its hash holds for each id the command of the last line that left a
      mark, unless that was a free. */
  lemma {:induction false} ScanIs(lines: seq<Line>)
    ensures Scan(lines).None? <==> exists n :: 0 <= n < |lines| && Fault(lines, n)
    ensures Scan(lines).Some? ==>
              && HashIs(Scan(lines).value, lines)
              && forall id :: id in Scan(lines).value ==>
                   var c := Scan(lines).value[id]; c != "" && c != "0" && c != "f" && c != "r"
    decreases |lines|
  {
    hide HashIs, Fault, ScanLine;
    if lines == [] {
      NothingHeld();
    } else {
      var n := |lines| - 1;
      var init, l := lines[..n], lines[n];
      ScanIs(init);
      assert lines == init + [l];
      forall i | 0 <= i < n
        ensures Fault(lines, i) <==> Fault(init, i)
      {
        FaultPrefix(lines, n, i);
      }
      if Blank(l) {
        BlankNoFault(lines, n);
      }
      if Scan(init).Some? {
        HashNext(Scan(init).value, init, l);
      }
    }
  }

  lemma NothingHeld()
    ensures HashIs(map[], [])
  {
  }

  lemma FaultPrefix(lines: seq<Line>, n: int, i: int)
    requires 0 <= i < n <= |lines|
    ensures Fault(lines, i) <==> Fault(lines[..n], i)
  {
    assert lines[..n][..i] == lines[..i];
  }

  lemma BlankNoFault(lines: seq<Line>, n: int)
    requires 0 <= n < |lines| && Blank(lines[n])
    ensures !Fault(lines, n)
  {
  }

  /** What the script prints: the number of requests and the requests themselves. */
  datatype Output = Died | Balanced(numOps: int, lines: seq<Line>)

  /** The script without `-s`.  The keys are taken in any order. */
  method Balance(input: seq<Line>, oldNumOps: int) returns (r: Output)
    ensures r == Died
            <==> || (exists n :: 0 <= n < |input| && Fault(input, n))
                 || (exists id, cmd :: Held(input, id, cmd) && cmd != "a")
    ensures Scan(input).None? ==> r == Died
    ensures Scan(input).Some? ==>
              var hash := Scan(input).value;
              if forall id :: id in hash ==> hash[id] == "a" || hash[id] == "r" then
                && r.Balanced? && r.numOps == oldNumOps + |hash|
                && exists ids: seq<string> :: Lists(ids, hash.Keys) && r.lines == NonBlank(input) + Frees(ids)
              else r == Died
  {
    hide Fault, Held;
    ScanIs(input);
    var hash: map<string, string>, lines: seq<Line> := map[], [];
    var k := 0;
    assert input[..0] == [];
    while k < |input|
      invariant 0 <= k <= |input|
      invariant Scan(input[..k]) == Some(hash) && lines == NonBlank(input[..k])
    {
      var l := input[k];
      ScanNext(input, k);
      if !Blank(l) {
        lines := lines + [l];
        var next := ScanLine(hash, l);
        if next.None? {
          ScanDead(input, k + 1);
          return Died;
        }
        hash := next.value;
      }
      k := k + 1;
    }
    assert input[..k] == input;
    var rest, frees := hash.Keys, [];
    ghost var ids: seq<string> := [];
    while rest != {}
      invariant rest <= hash.Keys && Lists(ids, hash.Keys - rest) && frees == Frees(ids)
      invariant forall id :: id in ids ==> hash[id] == "a" || hash[id] == "r"
      decreases rest
    {
      var key :| key in rest;
      if hash[key] != "a" && hash[key] != "r" {
        assert Held(input, key, hash[key]);
        return Died;
      }
      frees := frees + [FreeLine(key)];
      ids := ids + [key];
      rest := rest - {key};
    }
    assert hash.Keys - {} == hash.Keys;
    return Balanced(oldNumOps + |hash.Keys|, lines + frees);
  }

  /** `ids` lists the members of `s`, each once. */
  ghost predicate Lists(ids: seq<string>, s: set<string>) {
    && (forall i :: i in ids <==> i in s)
    && (forall i, j :: 0 <= i < j < |ids| ==> ids[i] != ids[j])
  }

  function Frees(ids: seq<string>): (r: seq<Line>)
    ensures |r| == |ids| && forall i :: 0 <= i < |r| ==> r[i] == FreeLine(ids[i])
  {
    seq(|ids|, i requires 0 <= i < |ids| => FreeLine(ids[i]))
  }

  // ---------- what acceptance means ----------

  ghost predicate OnlyRequests(lines: seq<Line>) {
    forall k :: 0 <= k < |lines| ==> Blank(lines[k]) || Request(lines[k])
  }

  lemma LiveSnoc(lines: seq<Line>, l: Line)
    ensures LiveAfter(lines + [l]) == LiveNext(LiveAfter(lines), l)
    ensures Consistent(lines + [l]) <==> Consistent(lines) && LineOk(LiveAfter(lines), l)
  {
    var r := lines + [l];
    assert r[..|lines|] == lines;
    forall k | 0 <= k < |lines|
      ensures r[..k] == lines[..k] && r[k] == lines[k]
    {
    }
    if Consistent(r) {
      forall k | 0 <= k < |lines|
        ensures LineOk(LiveAfter(lines[..k]), lines[k])
      {
        assert LineOk(LiveAfter(r[..k]), r[k]);
      }
      assert LineOk(LiveAfter(r[..|lines|]), r[|lines|]);
    }
  }

  /** On traces of allocations, reallocations and frees the script accepts exactly the
      consistent ones, and its hash then holds exactly the live ids. */
  lemma {:induction false} ScanIsConsistency(lines: seq<Line>)
    requires OnlyRequests(lines)
    ensures Scan(lines).Some? <==> Consistent(NonBlank(lines))
    ensures Scan(lines).Some? ==>
              && Scan(lines).value.Keys == LiveAfter(NonBlank(lines))
              && forall id :: id in Scan(lines).value ==> Scan(lines).value[id] == "a"
    decreases |lines|
  {
    if lines != [] {
      var last := |lines| - 1;
      var init, l := lines[..last], lines[last];
      ScanIsConsistency(init);
      if !Blank(l) {
        LiveSnoc(NonBlank(init), l);
        if Scan(init).Some? {
          ScanStep(Scan(init).value, LiveAfter(NonBlank(init)), l);
        }
      }
    }
  }

  lemma ScanStep(hash: map<string, string>, live: set<string>, l: Line)
    requires hash.Keys == live && Request(l) && forall id :: id in hash ==> hash[id] == "a"
    ensures ScanLine(hash, l).Some? <==> LineOk(live, l)
    ensures ScanLine(hash, l).Some? ==>
              && ScanLine(hash, l).value.Keys == LiveNext(live, l)
              && forall id :: id in ScanLine(hash, l).value ==> ScanLine(hash, l).value[id] == "a"
  {
  }

  lemma {:induction false} NonBlankRequests(lines: seq<Line>)
    requires OnlyRequests(lines)
    ensures forall k :: 0 <= k < |NonBlank(lines)| ==> Request(NonBlank(lines)[k]) && !Blank(NonBlank(lines)[k])
    decreases |lines|
  {
    if lines != [] {
      NonBlankRequests(lines[..|lines| - 1]);
    }
  }

  lemma {:induction false} NoBlanks(lines: seq<Line>)
    requires forall k :: 0 <= k < |lines| ==> !Blank(lines[k])
    ensures NonBlank(lines) == lines
    decreases |lines|
  {
    if lines != [] {
      var last := |lines| - 1;
      NoBlanks(lines[..last]);
      assert lines == lines[..last] + [lines[last]];
    }
  }

  lemma ListsInit(ids: seq<string>, s: set<string>)
    requires Lists(ids, s) && ids != []
    ensures var last := |ids| - 1; ids[last] in s && Lists(ids[..last], s - {ids[last]})
  {
    var last := |ids| - 1;
    assert ids == ids[..last] + [ids[last]];
  }

  lemma NoIds(s: set<string>)
    requires Lists([], s)
    ensures s == {}
  {
  }

  /** Freeing live ids one by one. */
  lemma {:induction false} FreesConsistent(lines: seq<Line>, ids: seq<string>, s: set<string>)
    requires Consistent(lines) && Lists(ids, s) && s <= LiveAfter(lines)
    ensures Consistent(lines + Frees(ids)) && LiveAfter(lines + Frees(ids)) == LiveAfter(lines) - s
    decreases |ids|
  {
    hide Lists, LiveAfter, Consistent;
    if ids == [] {
      assert lines + Frees(ids) == lines;
      NoIds(s);
    } else {
      var last := |ids| - 1;
      var init, id := ids[..last], ids[last];
      ListsInit(ids, s);
      FreesConsistent(lines, init, s - {id});
      assert lines + Frees(ids) == lines + Frees(init) + [FreeLine(id)];
      LiveSnoc(lines + Frees(init), FreeLine(id));
    }
  }

  /** The balanced trace starts with the original requests, is consistent, ends with no id
      live, and is accepted again with nothing to add. */
  lemma BalancedIsBalanced(input: seq<Line>, ids: seq<string>)
    requires OnlyRequests(input) && Scan(input).Some? && Lists(ids, Scan(input).value.Keys)
    ensures var out := NonBlank(input) + Frees(ids);
            && Consistent(out) && LiveAfter(out) == {}
            && NonBlank(out) == out && Scan(out) == Some(map[])
            && forall k :: 0 <= k < |out| ==> Request(out[k])
  {
    hide Scan, NonBlank, LiveAfter, Consistent, Lists, Request, Blank;
    ScanIsConsistency(input);
    NonBlankRequests(input);
    var out := NonBlank(input) + Frees(ids);
    FreesAreRequests(ids);
    FreesConsistent(NonBlank(input), ids, Scan(input).value.Keys);
    NoBlanks(out);
    ScanIsConsistency(out);
    assert Scan(out).value.Keys == {};
  }

  lemma FreesAreRequests(ids: seq<string>)
    ensures forall k :: 0 <= k < |ids| ==> Request(Frees(ids)[k]) && !Blank(Frees(ids)[k])
  {
  }

  lemma HeadIn(ids: seq<string>)
    requires ids != []
    ensures ids[0] in ids
  {
  }

  /** Balancing twice is balancing once. */
  lemma RebalanceAddsNothing(input: seq<Line>, ids: seq<string>, again: seq<string>)
    requires OnlyRequests(input) && Scan(input).Some? && Lists(ids, Scan(input).value.Keys)
    requires var out := NonBlank(input) + Frees(ids); Scan(out).Some? ==> Lists(again, Scan(out).value.Keys)
    ensures var out := NonBlank(input) + Frees(ids);
            Scan(out).Some? && NonBlank(out) + Frees(again) == out
  {
    hide OnlyRequests, Scan, NonBlank;
    BalancedIsBalanced(input, ids);
    if again != [] {
      HeadIn(again);
      assert false;
    }
  }

  // ---------- the driver's view ----------

  /** The operations the driver reads, `num` being the numeral value of an id. */
  function Ops(lines: seq<Line>, num: string -> int): (r: seq<TraceOp>)
    ensures |r| == |lines|
  {
    seq(|lines|, k requires 0 <= k < |lines| =>
      var l := lines[k];
      if l.cmd == "a" then AllocOp(num(l.id), l.size)
      else if l.cmd == "r" then ReallocOp(num(l.id), l.size)
      else FreeOp(num(l.id)))
  }

  /** Distinct ids have distinct numbers below `numIds`, and sizes are ints. */
  ghost predicate Readable(lines: seq<Line>, num: string -> int, numIds: int) {
    && (forall k :: 0 <= k < |lines| ==>
          && Request(lines[k]) && 0 <= num(lines[k].id) < numIds
          && (lines[k].cmd != "f" ==> 0 <= lines[k].size < 0x8000_0000))
    && (forall i, j :: 0 <= i < |lines| && 0 <= j < |lines| && num(lines[i].id) == num(lines[j].id) ==>
          lines[i].id == lines[j].id)
  }

  /** An allocation of, or a reallocation to, zero bytes.  The checker does not look at sizes:
      to it the id is live afterwards, to the driver it is not. */
  predicate Zero(l: Line) {
    l.cmd != "f" && l.size == 0
  }

  /** Every allocation and reallocation is for at least one byte. */
  predicate Sized(lines: seq<Line>) {
    forall k :: 0 <= k < |lines| ==> !Zero(lines[k])
  }

  /** None of the first `n` lines names an id after a request of zero bytes for it. */
  predicate NeverAgain(lines: seq<Line>, n: int)
    requires 0 <= n <= |lines|
  {
    forall j, k :: 0 <= j < k < n && Zero(lines[j]) ==> lines[j].id != lines[k].id
  }

  /** The ids for which the first `n` lines have a request of zero bytes. */
  function Zeroed(lines: seq<Line>, n: int): set<string>
    requires 0 <= n <= |lines|
  {
    set j | 0 <= j < n && Zero(lines[j]) :: lines[j].id
  }

  function Numbers(s: set<string>, num: string -> int): set<int> {
    set id | id in s :: num(id)
  }

  ghost predicate LinesOk(lines: seq<Line>, k: int)
    requires 0 <= k <= |lines|
  {
    forall j :: 0 <= j < k ==> LineOk(LiveAfter(lines[..j]), lines[j])
  }

  ghost predicate OpsOk(ops: seq<TraceOp>, numIds: int, k: int)
    requires 0 <= k <= |ops|
  {
    forall j :: 0 <= j < k ==> OpOk(SizesAfter(ops[..j]), ops[j], numIds)
  }

  /** The driver's live ids are the checker's but for those of requests of zero bytes. */
  ghost predicate Agree(m: Sizes, live: set<string>, zeroed: set<string>, num: string -> int) {
    m.Keys == Numbers(live - zeroed, num) && zeroed <= live
  }

  /** Every live id occurs in the lines so far. */
  ghost predicate Seen(live: set<string>, lines: seq<Line>, k: int)
    requires 0 <= k <= |lines|
  {
    forall id :: id in live ==> exists i :: 0 <= i < k && lines[i].id == id
  }

  /** As long as no id is named again after a request of zero bytes, checker and driver find
      fault at the same line; and one of them does at the latest when an id is. */
  lemma {:induction false} SameLive(lines: seq<Line>, num: string -> int, numIds: int, k: int)
    requires Readable(lines, num, numIds) && 0 <= k <= |lines|
    ensures NeverAgain(lines, k) ==> (LinesOk(lines, k) <==> OpsOk(Ops(lines, num), numIds, k))
    ensures LinesOk(lines, k) && OpsOk(Ops(lines, num), numIds, k) ==> NeverAgain(lines, k)
    ensures LinesOk(lines, k) && NeverAgain(lines, k) ==>
              && Agree(SizesAfter(Ops(lines, num)[..k]), LiveAfter(lines[..k]), Zeroed(lines, k), num)
              && Seen(LiveAfter(lines[..k]), lines, k)
    decreases k
  {
    hide Readable, Seen, LiveAfter, SizesAfter, Apply, LiveNext, LineOk, OpOk, Ops, Agree, Zeroed, NeverAgain;
    if k > 0 {
      SameLive(lines, num, numIds, k - 1);
      AgainNext(lines, k - 1);
      if LinesOk(lines, k - 1) && NeverAgain(lines, k - 1) {
        var live := LiveAfter(lines[..k - 1]);
        assert lines[..k] == lines[..k - 1] + [lines[k - 1]];
        LiveSnoc(lines[..k - 1], lines[k - 1]);
        NextSizes(Ops(lines, num), k - 1);
        SameNext(SizesAfter(Ops(lines, num)[..k - 1]), live, lines, num, numIds, k - 1);
      }
    } else {
      NothingSeen(lines, num);
    }
  }

  lemma NothingSeen(lines: seq<Line>, num: string -> int)
    ensures lines[..0] == [] && Ops(lines, num)[..0] == [] && NeverAgain(lines, 0)
    ensures Seen(LiveAfter([]), lines, 0) && Agree(SizesAfter([]), LiveAfter([]), Zeroed(lines, 0), num)
  {
  }

  lemma AgainNext(lines: seq<Line>, k: int)
    requires 0 <= k < |lines|
    ensures NeverAgain(lines, k + 1) <==> NeverAgain(lines, k) && lines[k].id !in Zeroed(lines, k)
    ensures Zeroed(lines, k + 1) == Zeroed(lines, k) + (if Zero(lines[k]) then {lines[k].id} else {})
  {
  }

  lemma SameNext(m: Sizes, live: set<string>, lines: seq<Line>, num: string -> int, numIds: int, k: int)
    requires Readable(lines, num, numIds) && 0 <= k < |lines|
    requires Agree(m, live, Zeroed(lines, k), num) && Seen(live, lines, k)
    ensures lines[k].id !in Zeroed(lines, k) ==>
              && (OpOk(m, Ops(lines, num)[k], numIds) <==> LineOk(live, lines[k]))
              && (LineOk(live, lines[k]) ==>
                    && Agree(Apply(m, Ops(lines, num)[k]), LiveNext(live, lines[k]), Zeroed(lines, k + 1), num)
                    && Seen(LiveNext(live, lines[k]), lines, k + 1))
    ensures lines[k].id in Zeroed(lines, k) ==> !OpOk(m, Ops(lines, num)[k], numIds) || !LineOk(live, lines[k])
  {
    hide Zeroed, NeverAgain;
    var l, z := lines[k], Zeroed(lines, k);
    AgainNext(lines, k);
    NumberIs(lines, num, numIds, live, k);
    assert num(l.id) in m <==> l.id in live - z;
    SeenNext(live, lines, k);
  }

  /** No other live id has the number of the id of line `k`. */
  lemma NumberIs(lines: seq<Line>, num: string -> int, numIds: int, live: set<string>, k: int)
    requires Readable(lines, num, numIds) && 0 <= k < |lines| && Seen(live, lines, k)
    ensures forall id :: id in live && num(id) == num(lines[k].id) ==> id == lines[k].id
  {
    forall id | id in live && num(id) == num(lines[k].id)
      ensures id == lines[k].id
    {
      var i :| 0 <= i < k && lines[i].id == id;
    }
  }

  lemma SeenNext(live: set<string>, lines: seq<Line>, k: int)
    requires 0 <= k < |lines| && Seen(live, lines, k)
    ensures Seen(LiveNext(live, lines[k]), lines, k + 1)
  {
    forall id | id in LiveNext(live, lines[k])
      ensures exists i :: 0 <= i < k + 1 && lines[i].id == id
    {
      if id == lines[k].id {
        assert lines[k].id == id;
      }
    }
  }

  /** A trace that the checker accepts can be replayed, and a trace that can be replayed is
      accepted, exactly if no id is named again after a request of zero bytes for it; so the two
      agree on all traces whose requests are for at least one byte. */
  lemma ConsistentReplays(lines: seq<Line>, num: string -> int, numIds: int)
    requires Readable(lines, num, numIds)
    ensures Consistent(lines) ==> (WellFormed(Ops(lines, num), numIds) <==> NeverAgain(lines, |lines|))
    ensures WellFormed(Ops(lines, num), numIds) ==> (Consistent(lines) <==> NeverAgain(lines, |lines|))
    ensures Sized(lines) ==> (Consistent(lines) <==> WellFormed(Ops(lines, num), numIds))
  {
    SameLive(lines, num, numIds, |lines|);
    assert Consistent(lines) <==> LinesOk(lines, |lines|);
  }

  /** An accepted trace that leaves no id outstanding can be replayed exactly if all its requests
      are for at least one byte: the id of any other is freed when the driver has no block for
      it. */
  lemma OutstandingReplays(lines: seq<Line>, num: string -> int, numIds: int)
    requires Readable(lines, num, numIds) && Consistent(lines) && LiveAfter(lines) == {}
    ensures WellFormed(Ops(lines, num), numIds) <==> Sized(lines)
    ensures Sized(lines) ==> SizesAfter(Ops(lines, num)).Keys == {}
  {
    hide Readable, LiveAfter, SizesAfter, Ops, WellFormed;
    SameLive(lines, num, numIds, |lines|);
    ConsistentReplays(lines, num, numIds);
    assert lines[..|lines|] == lines && Ops(lines, num)[..|lines|] == Ops(lines, num);
    if NeverAgain(lines, |lines|) {
      forall k | 0 <= k < |lines|
        ensures !Zero(lines[k])
      {
        assert lines[k].id !in Zeroed(lines, |lines|);
      }
    }
  }

  /** What the script makes of an accepted trace can be replayed exactly if the trace had no
      request of zero bytes, and then leaves no id live. */
  lemma BalancedReplays(input: seq<Line>, ids: seq<string>, num: string -> int, numIds: int)
    requires OnlyRequests(input) && Scan(input).Some? && Lists(ids, Scan(input).value.Keys)
    requires Readable(NonBlank(input) + Frees(ids), num, numIds)
    ensures var ops := Ops(NonBlank(input) + Frees(ids), num);
            && (WellFormed(ops, numIds) <==> Sized(NonBlank(input)))
            && (WellFormed(ops, numIds) ==> Sized(NonBlank(input) + Frees(ids)) && SizesAfter(ops).Keys == {})
  {
    hide OnlyRequests, Scan, Lists, NonBlank, Readable, Consistent, WellFormed, LiveAfter, SizesAfter, Ops;
    var lines, frees := NonBlank(input), Frees(ids);
    BalancedIsBalanced(input, ids);
    OutstandingReplays(lines + frees, num, numIds);
    forall k | 0 <= k < |lines|
      ensures (lines + frees)[k] == lines[k]
    {
    }
    forall k | |lines| <= k < |lines + frees|
      ensures !Zero((lines + frees)[k])
    {
      assert (lines + frees)[k] == frees[k - |lines|];
    }
  }

  /** "a 0 16, r 0 0, f 0" is accepted with nothing outstanding, and cannot be replayed: the driver
      would free a pointer that dangles. */
  lemma DanglingFree(num: string -> int, numIds: int)
    ensures var lines := [Line("a", "0", 16), Line("r", "0", 0), Line("f", "0", 0)];
            Scan(lines) == Some(map[]) && !WellFormed(Ops(lines, num), numIds)
  {
    var lines := [Line("a", "0", 16), Line("r", "0", 0), Line("f", "0", 0)];
    assert lines[..0] == [];
    ScanNext(lines, 0);
    ScanNext(lines, 1);
    ScanNext(lines, 2);
    assert lines[..3] == lines;
    var ops := Ops(lines, num);
    assert ops[..0] == [];
    NextSizes(ops, 0);
    NextSizes(ops, 1);
    assert !OpOk(SizesAfter(ops[..2]), ops[2], numIds);
  }

  /** Balancing "a 0 0", which can be replayed, adds a free request that the driver has no block
      for. */
  lemma BalancingBreaks(num: string -> int, numIds: int)
    requires 0 <= num("0") < numIds
    ensures var lines := [Line("a", "0", 0)];
            && WellFormed(Ops(lines, num), numIds)
            && Scan(lines).Some? && Lists(["0"], Scan(lines).value.Keys)
            && !WellFormed(Ops(NonBlank(lines) + Frees(["0"]), num), numIds)
  {
    var lines := [Line("a", "0", 0)];
    assert lines[..0] == [] && lines[..1] == lines;
    ScanNext(lines, 0);
    assert NonBlank([]) == [] && NonBlank(lines) == lines;
    var ops, ops' := Ops(lines, num), Ops(lines + Frees(["0"]), num);
    assert ops[..0] == [] && ops'[..0] == [];
    NextSizes(ops', 0);
    assert !OpOk(SizesAfter(ops'[..1]), ops'[1], numIds);
  }
}
