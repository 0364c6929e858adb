/** The address-group configuration shared by both IP services
    (unifi.ipmanager/Options/IpOptions.cs), the order in which the
    allocators try candidates, the first-fit rule they implement, and the
    classification of an address into a group (identical in
    Unifi.IpManager/Services/IpService.cs and unifi.ipmanager/Services/IpService.cs). */
module IpGroups {
  import opened Wrappers
  import opened Text
  import opened Cooldown

  /** A range of last octets. Allocation reads it as [min, max),
      classification as [min, max]. */
  datatype IpBlock = IpBlock(min: int, max: int)

  datatype IpGroup = IpGroup(name: string, blocks: seq<IpBlock>)

  const SubnetPrefix: string := "192.168.1."

  /** $"192.168.1.{n}" */
  function AddressOf(n: int): string {
    SubnetPrefix + IntToString(n)
  }

  lemma AddressOfInjective(m: int, n: int)
    requires AddressOf(m) == AddressOf(n)
    ensures m == n
  {
    assert IntToString(m) == AddressOf(m)[|SubnetPrefix|..];
    assert IntToString(n) == AddressOf(n)[|SubnetPrefix|..];
    IntToStringInjective(m, n);
  }

  // ---------------------------------------------------------------------
  // Group lookup by name (List.Find / FirstOrDefault)

  /** The first configured group whose name equals `name`; a null name
      matches nothing since configured names are present. */
  function FindGroup(groups: seq<IpGroup>, name: Option<string>): (r: Option<IpGroup>)
    ensures r.Some? ==> exists k :: 0 <= k < |groups| && groups[k] == r.value &&
                          Some(groups[k].name) == name &&
                          forall j :: 0 <= j < k ==> Some(groups[j].name) != name
    ensures r.None? <==> forall k :: 0 <= k < |groups| ==> Some(groups[k].name) != name
  {
    if |groups| == 0 then None
    else if Some(groups[0].name) == name then Some(groups[0])
    else
      var r := FindGroup(groups[1..], name);
      assert forall k :: 1 <= k < |groups| ==> groups[k] == groups[1..][k - 1];
      r
  }

  // ---------------------------------------------------------------------
  // Candidate order of the allocation scan

  /** lastIpDigit = lo; while (lastIpDigit < hi) ... ++lastIpDigit */
  function Range(lo: int, hi: int): (r: seq<int>)
    ensures |r| == if lo < hi then hi - lo else 0
    ensures forall k :: 0 <= k < |r| ==> r[k] == lo + k
    decreases hi - lo
  {
    if lo >= hi then [] else [lo] + Range(lo + 1, hi)
  }

  /** Every last octet the allocator tries, blocks in declaration order,
      octets ascending within a block. */
  function Candidates(blocks: seq<IpBlock>): seq<int> {
    if |blocks| == 0 then []
    else Candidates(blocks[..|blocks| - 1]) + Range(blocks[|blocks| - 1].min, blocks[|blocks| - 1].max)
  }

  /** A candidate is exactly an octet of some block, with the block's max
      excluded. */
  lemma {:induction false} CandidateInBlock(blocks: seq<IpBlock>, n: int)
    ensures n in Candidates(blocks) <==> exists b :: b in blocks && b.min <= n < b.max
  {
    if |blocks| > 0 {
      var init, last := blocks[..|blocks| - 1], blocks[|blocks| - 1];
      CandidateInBlock(init, n);
      assert blocks == init + [last];
      var r := Range(last.min, last.max);
      assert last.min <= n < last.max ==> r[n - last.min] == n;
      if n in Candidates(blocks) && n !in Candidates(init) {
        assert n in r;
      }
      if exists b :: b in blocks && b.min <= n < b.max {
        var b :| b in blocks && b.min <= n < b.max;
        if b != last {
          assert b in init;
        }
      }
    }
  }

  /** Adding a block appends its range to the candidates. */
  lemma CandidatesSnoc(blocks: seq<IpBlock>, i: nat)
    requires i < |blocks|
    ensures Candidates(blocks[..i + 1]) == Candidates(blocks[..i]) + Range(blocks[i].min, blocks[i].max)
  {
    assert blocks[..i + 1][..i] == blocks[..i];
  }

  lemma RangeSnoc(lo: int, hi: int)
    requires lo <= hi
    ensures Range(lo, hi + 1) == Range(lo, hi) + [hi]
  {
  }

  lemma RangeSplit(lo: int, d: int, hi: int)
    requires lo <= d < hi
    ensures Range(lo, hi) == Range(lo, d) + [d] + Range(d + 1, hi)
  {
  }

  /** The candidates of consecutive block lists are consecutive. */
  lemma {:induction false} CandidatesAppend(a: seq<IpBlock>, b: seq<IpBlock>)
    ensures Candidates(a + b) == Candidates(a) + Candidates(b)
    decreases |b|
  {
    if |b| > 0 {
      var b' := b[..|b| - 1];
      assert (a + b)[..|a + b| - 1] == a + b';
      CandidatesAppend(a, b');
    } else {
      assert a + b == a;
    }
  }

  /** The candidates around one block. */
  lemma CandidatesMiddle(pre: seq<IpBlock>, b: IpBlock, post: seq<IpBlock>)
    ensures Candidates(pre + [b] + post) == Candidates(pre) + Range(b.min, b.max) + Candidates(post)
  {
    CandidatesAppend(pre + [b], post);
    CandidatesAppend(pre, [b]);
    assert [b][..0] == [];
  }

  lemma Regroup(c1: seq<int>, r1: seq<int>, d: int, r2: seq<int>, c2: seq<int>)
    ensures c1 + (r1 + [d] + r2) + c2 == c1 + r1 + [d] + (r2 + c2)
  {
  }

  /** Where octet d of block i sits among all candidates. */
  lemma CandidatesAround(blocks: seq<IpBlock>, i: nat, d: int)
    requires i < |blocks| && blocks[i].min <= d < blocks[i].max
    ensures Candidates(blocks) ==
      Candidates(blocks[..i]) + Range(blocks[i].min, d) + [d] + (Range(d + 1, blocks[i].max) + Candidates(blocks[i + 1..]))
  {
    var pre, b, post := blocks[..i], blocks[i], blocks[i + 1..];
    assert blocks == pre + [b] + post;
    CandidatesMiddle(pre, b, post);
    RangeSplit(b.min, d, b.max);
    Regroup(Candidates(pre), Range(b.min, d), d, Range(d + 1, b.max), Candidates(post));
  }

  // ---------------------------------------------------------------------
  // The first-fit rule

  /** An address is unavailable when the caller lists it as used or its
      cooldown key is in the cache. */
  predicate Taken(n: int, used: seq<Option<string>>, keys: set<string>) {
    Some(AddressOf(n)) in used || CooldownKey(Some(AddressOf(n))) in keys
  }

  predicate AllTaken(cands: seq<int>, used: seq<Option<string>>, keys: set<string>) {
    forall k :: 0 <= k < |cands| ==> Taken(cands[k], used, keys)
  }

  lemma AllTakenSnoc(cands: seq<int>, x: int, used: seq<Option<string>>, keys: set<string>)
    requires AllTaken(cands, used, keys) && Taken(x, used, keys)
    ensures AllTaken(cands + [x], used, keys)
  {
    assert forall k :: 0 <= k < |cands| ==> (cands + [x])[k] == cands[k];
  }

  /** The first candidate from position i on that `taken` rejects. */
  function FirstUntakenFrom(cands: seq<int>, taken: int -> bool, i: nat): Option<int>
    decreases |cands| - i
  {
    if i >= |cands| then None
    else if !taken(cands[i]) then Some(cands[i])
    else FirstUntakenFrom(cands, taken, i + 1)
  }

  lemma {:induction false} FirstUntakenFromNone(cands: seq<int>, taken: int -> bool, i: nat)
    ensures FirstUntakenFrom(cands, taken, i).None? <==> forall k :: i <= k < |cands| ==> taken(cands[k])
    decreases |cands| - i
  {
    if i < |cands| && taken(cands[i]) {
      FirstUntakenFromNone(cands, taken, i + 1);
    }
  }

  lemma {:induction false} FirstUntakenFromSome(cands: seq<int>, taken: int -> bool, i: nat) returns (k: nat)
    requires FirstUntakenFrom(cands, taken, i).Some?
    ensures i <= k < |cands| && cands[k] == FirstUntakenFrom(cands, taken, i).value
    ensures !taken(cands[k])
    ensures forall j :: i <= j < k ==> taken(cands[j])
    decreases |cands| - i
  {
    if taken(cands[i]) {
      k := FirstUntakenFromSome(cands, taken, i + 1);
    } else {
      k := i;
    }
  }

  lemma {:induction false} FirstUntakenFromAt(cands: seq<int>, taken: int -> bool, i: nat, k: nat)
    requires i <= k < |cands|
    requires forall j :: i <= j < k ==> taken(cands[j])
    requires !taken(cands[k])
    ensures FirstUntakenFrom(cands, taken, i) == Some(cands[k])
    decreases k - i
  {
    if i < k {
      FirstUntakenFromAt(cands, taken, i + 1, k);
    }
  }

  /** Taken, as a test on candidates. */
  function TakenBy(used: seq<Option<string>>, keys: set<string>): int -> bool {
    n => Taken(n, used, keys)
  }

  /** The first candidate from position i on that is not taken. */
  function FirstFreeFrom(cands: seq<int>, used: seq<Option<string>>, keys: set<string>, i: nat): Option<int> {
    FirstUntakenFrom(cands, TakenBy(used, keys), i)
  }

  /** The first candidate that is not taken. */
  function FirstFree(cands: seq<int>, used: seq<Option<string>>, keys: set<string>): Option<int> {
    FirstFreeFrom(cands, used, keys, 0)
  }

  lemma FirstFreeFromNone(cands: seq<int>, used: seq<Option<string>>, keys: set<string>, i: nat)
    ensures FirstFreeFrom(cands, used, keys, i).None? <==>
      forall k :: i <= k < |cands| ==> Taken(cands[k], used, keys)
  {
    FirstUntakenFromNone(cands, TakenBy(used, keys), i);
  }

  lemma FirstFreeFromSome(cands: seq<int>, used: seq<Option<string>>, keys: set<string>, i: nat)
    returns (k: nat)
    requires FirstFreeFrom(cands, used, keys, i).Some?
    ensures i <= k < |cands| && cands[k] == FirstFreeFrom(cands, used, keys, i).value
    ensures !Taken(cands[k], used, keys)
    ensures forall j :: i <= j < k ==> Taken(cands[j], used, keys)
  {
    k := FirstUntakenFromSome(cands, TakenBy(used, keys), i);
  }

  /** FirstFree finds the earliest free candidate, and finds none exactly
      when every candidate is taken. */
  lemma FirstFreeSpec(cands: seq<int>, used: seq<Option<string>>, keys: set<string>)
    ensures FirstFree(cands, used, keys).None? <==> AllTaken(cands, used, keys)
    ensures FirstFree(cands, used, keys).Some? ==>
      (exists k :: 0 <= k < |cands| && cands[k] == FirstFree(cands, used, keys).value &&
         !Taken(cands[k], used, keys) && forall j :: 0 <= j < k ==> Taken(cands[j], used, keys))
  {
    FirstFreeFromNone(cands, used, keys, 0);
    if FirstFree(cands, used, keys).Some? {
      var k := FirstFreeFromSome(cands, used, keys, 0);
    }
  }

  /** The scan's own view: a free candidate after taken ones is the answer. */
  lemma FirstFreeAt(pre: seq<int>, x: int, post: seq<int>, used: seq<Option<string>>, keys: set<string>)
    requires AllTaken(pre, used, keys) && !Taken(x, used, keys)
    ensures FirstFree(pre + [x] + post, used, keys) == Some(x)
  {
    var cands := pre + [x] + post;
    assert forall j :: 0 <= j < |pre| ==> cands[j] == pre[j];
    FirstUntakenFromAt(cands, TakenBy(used, keys), 0, |pre|);
  }

  // ---------------------------------------------------------------------
  // The scan's steps

  /** The candidates the scan has passed when it is at octet d of block i:
      every earlier block, then block i's octets below d. */
  function Scanned(blocks: seq<IpBlock>, i: nat, d: int): seq<int>
    requires i < |blocks|
  {
    Candidates(blocks[..i]) + Range(blocks[i].min, d)
  }

  lemma ScanStart(blocks: seq<IpBlock>, i: nat)
    requires i < |blocks|
    ensures Scanned(blocks, i, blocks[i].min) == Candidates(blocks[..i])
  {
    assert Candidates(blocks[..i]) + [] == Candidates(blocks[..i]);
  }

  /** A taken octet extends the passed candidates. */
  lemma ScanStep(blocks: seq<IpBlock>, i: nat, d: int, used: seq<Option<string>>, keys: set<string>)
    requires i < |blocks| && blocks[i].min <= d
    requires AllTaken(Scanned(blocks, i, d), used, keys) && Taken(d, used, keys)
    ensures AllTaken(Scanned(blocks, i, d + 1), used, keys)
  {
    RangeSnoc(blocks[i].min, d);
    AllTakenSnoc(Scanned(blocks, i, d), d, used, keys);
    assert Scanned(blocks, i, d) + [d] == Scanned(blocks, i, d + 1);
  }

  /** A free octet after taken ones is the first free candidate. */
  lemma ScanFound(blocks: seq<IpBlock>, i: nat, d: int, used: seq<Option<string>>, keys: set<string>)
    requires i < |blocks| && blocks[i].min <= d < blocks[i].max
    requires AllTaken(Scanned(blocks, i, d), used, keys) && !Taken(d, used, keys)
    ensures FirstFree(Candidates(blocks), used, keys) == Some(d)
  {
    CandidatesAround(blocks, i, d);
    FirstFreeAt(Scanned(blocks, i, d), d, Range(d + 1, blocks[i].max) + Candidates(blocks[i + 1..]), used, keys);
  }

  /** A block scanned to its end (or empty) adds all its octets. */
  lemma ScanBlockDone(blocks: seq<IpBlock>, i: nat, d: int, used: seq<Option<string>>, keys: set<string>)
    requires i < |blocks|
    requires d == blocks[i].max || (blocks[i].max <= blocks[i].min && d == blocks[i].min)
    requires AllTaken(Scanned(blocks, i, d), used, keys)
    ensures AllTaken(Candidates(blocks[..i + 1]), used, keys)
  {
    assert Range(blocks[i].min, d) == Range(blocks[i].min, blocks[i].max);
    CandidatesSnoc(blocks, i);
  }

  // ---------------------------------------------------------------------
  // Allocation: GetUnusedGroupIpAddress as a function of its inputs

  /** The address GetUnusedGroupIpAddress returns for a cache whose keys are
      `keys`; "" when the group is unknown (or the name null) or every
      candidate is taken. An address it hands out is neither in use nor in
      cooldown. */
  function Allocate(groups: seq<IpGroup>, name: Option<string>, used: seq<Option<string>>, keys: set<string>): (r: string)
    ensures (forall k :: 0 <= k < |groups| ==> Some(groups[k].name) != name) ==> r == ""
    ensures r != "" ==> Some(r) !in used && CooldownKey(Some(r)) !in keys
  {
    match FindGroup(groups, name)
    case None => ""
    case Some(g) =>
      match FirstFree(Candidates(g.blocks), used, keys)
      case None => ""
      case Some(n) =>
        FirstFreeSpec(Candidates(g.blocks), used, keys);
        AddressOf(n)
  }

  /** A non-empty result is 192.168.1.n with min <= n < max for a block of
      the named group, is not in the used list and is not in cooldown. */
  lemma AllocatedAddressIsFree(groups: seq<IpGroup>, name: Option<string>, used: seq<Option<string>>, keys: set<string>)
    requires Allocate(groups, name, used, keys) != ""
    ensures exists g, b, n :: (FindGroup(groups, name) == Some(g) && b in g.blocks && b.min <= n < b.max &&
      Allocate(groups, name, used, keys) == AddressOf(n))
    ensures Some(Allocate(groups, name, used, keys)) !in used
    ensures CooldownKey(Some(Allocate(groups, name, used, keys))) !in keys
  {
    var g := FindGroup(groups, name).value;
    var cands := Candidates(g.blocks);
    var n := FirstFree(cands, used, keys).value;
    FirstFreeSpec(cands, used, keys);
    CandidateInBlock(g.blocks, n);
  }

  /** First fit: every candidate before the result, in block order then
      ascending octet, is used or in cooldown. */
  lemma AllocationIsFirstFit(groups: seq<IpGroup>, name: Option<string>, used: seq<Option<string>>, keys: set<string>, g: IpGroup)
    returns (k: nat)
    requires FindGroup(groups, name) == Some(g)
    requires Allocate(groups, name, used, keys) != ""
    ensures k < |Candidates(g.blocks)|
    ensures Allocate(groups, name, used, keys) == AddressOf(Candidates(g.blocks)[k])
    ensures forall j :: 0 <= j < k ==> Taken(Candidates(g.blocks)[j], used, keys)
  {
    k := FirstFreeFromSome(Candidates(g.blocks), used, keys, 0);
  }

  /** The allocator answers "" exactly when the group is unknown or every
      candidate of every block is used or in cooldown. */
  lemma AllocationEmptyIffExhausted(groups: seq<IpGroup>, name: Option<string>, used: seq<Option<string>>, keys: set<string>)
    ensures Allocate(groups, name, used, keys) == "" <==>
      FindGroup(groups, name).None? ||
      forall b, n :: b in FindGroup(groups, name).value.blocks && b.min <= n < b.max ==> Taken(n, used, keys)
  {
    match FindGroup(groups, name)
    case None =>
    case Some(g) =>
      var cands := Candidates(g.blocks);
      FirstFreeSpec(cands, used, keys);
      if AllTaken(cands, used, keys) {
        forall b, n | b in g.blocks && b.min <= n < b.max
          ensures Taken(n, used, keys)
        {
          CandidateInBlock(g.blocks, n);
          var k :| 0 <= k < |cands| && cands[k] == n;
        }
      } else {
        var n := FirstFree(cands, used, keys).value;
        CandidateInBlock(g.blocks, n);
        var b :| b in g.blocks && b.min <= n < b.max;
      }
  }

  /** The upper bound of a block is never handed out from that block: an
      address is only allocated from a block that holds it below its max. */
  lemma AllocationNeverAtMaxAlone(groups: seq<IpGroup>, name: Option<string>, used: seq<Option<string>>, keys: set<string>, n: int)
    requires FindGroup(groups, name).Some?
    requires forall b :: b in FindGroup(groups, name).value.blocks ==> !(b.min <= n < b.max)
    ensures Allocate(groups, name, used, keys) != AddressOf(n)
  {
    if Allocate(groups, name, used, keys) == AddressOf(n) {
      var g := FindGroup(groups, name).value;
      var m := FirstFree(Candidates(g.blocks), used, keys).value;
      FirstFreeSpec(Candidates(g.blocks), used, keys);
      CandidateInBlock(g.blocks, m);
      AddressOfInjective(m, n);
      assert false;
    }
  }

  /** An address whose cooldown key is in the cache is not allocated. */
  lemma CooledAddressNotAllocated(groups: seq<IpGroup>, name: Option<string>, used: seq<Option<string>>, keys: set<string>, ip: string)
    requires ip != "" && CooldownKey(Some(ip)) in keys
    ensures Allocate(groups, name, used, keys) != ip
  {
    if Allocate(groups, name, used, keys) != "" {
      AllocatedAddressIsFree(groups, name, used, keys);
    }
  }

  // ---------------------------------------------------------------------
  // The classification pattern (\d{1,3})\.(\d{1,3})\.(\d{1,3})\.(\d{1,3}),
  // unanchored, as .NET's Regex.Match finds it

  /** The number of consecutive digits starting at i. */
  function Run(s: string, i: nat): (r: nat)
    ensures i <= |s| ==> i + r <= |s|
    ensures forall k :: i <= k < i + r ==> k < |s| && IsDigit(s[k])
    ensures i + r >= |s| || !IsDigit(s[i + r])
    decreases |s| - i
  {
    if i < |s| && IsDigit(s[i]) then 1 + Run(s, i + 1) else 0
  }

  /** The run length is the unique length with those two properties. */
  lemma RunIs(s: string, i: nat, k: nat)
    requires i + k <= |s|
    requires forall j :: i <= j < i + k ==> IsDigit(s[j])
    requires i + k == |s| || !IsDigit(s[i + k])
    ensures Run(s, i) == k
  {
  }

  /** "\d{1,3}\." at i: greedy backtracking can only succeed with the whole
      digit run, so the run must be 1 to 3 digits long and end at a dot.
      Gives the position after the dot. */
  function OctetDot(s: string, i: nat): (r: Option<nat>)
    ensures r.Some? ==> i < r.value <= |s|
  {
    var n := Run(s, i);
    if 1 <= n <= 3 && i + n < |s| && s[i + n] == '.' then Some(i + n + 1) else None
  }

  /** The text of the fourth group when the pattern matches starting at i. */
  function MatchAt(s: string, i: nat): (r: Option<string>)
    ensures r.Some? ==> 1 <= |r.value| <= 3 && AllDigits(r.value)
  {
    match OctetDot(s, i)
    case None => None
    case Some(j2) =>
      match OctetDot(s, j2)
      case None => None
      case Some(j3) =>
        match OctetDot(s, j3)
        case None => None
        case Some(j4) =>
          var n := Run(s, j4);
          if n == 0 then None else Some(s[j4..j4 + (if n < 3 then n else 3)])
  }

  function LeftmostFrom(s: string, i: nat): (r: Option<string>)
    ensures r.Some? ==> 1 <= |r.value| <= 3 && AllDigits(r.value)
    decreases |s| - i
  {
    if i >= |s| then None
    else if MatchAt(s, i).Some? then MatchAt(s, i)
    else LeftmostFrom(s, i + 1)
  }

  /** Regex.Match(...).Groups[4].Value of the leftmost match, if any. */
  function LastOctetText(s: string): (r: Option<string>)
    ensures r.Some? ==> 1 <= |r.value| <= 3 && AllDigits(r.value)
  {
    LeftmostFrom(s, 0)
  }

  lemma NoMatchPastEnd(s: string, j: nat)
    requires |s| <= j
    ensures MatchAt(s, j).None?
  {
    assert Run(s, j) == 0;
  }

  lemma {:induction false} LeftmostFromNone(s: string, i: nat)
    ensures LeftmostFrom(s, i).None? <==> forall j: nat :: i <= j ==> MatchAt(s, j).None?
    decreases |s| - i
  {
    if i >= |s| {
      forall j: nat | i <= j ensures MatchAt(s, j).None? {
        NoMatchPastEnd(s, j);
      }
    } else if MatchAt(s, i).None? {
      LeftmostFromNone(s, i + 1);
    }
  }

  lemma {:induction false} LeftmostFromSome(s: string, i: nat) returns (j: nat)
    requires LeftmostFrom(s, i).Some?
    ensures i <= j < |s| && MatchAt(s, j) == LeftmostFrom(s, i)
    ensures forall m: nat :: i <= m < j ==> MatchAt(s, m).None?
    decreases |s| - i
  {
    if MatchAt(s, i).Some? {
      j := i;
    } else {
      j := LeftmostFromSome(s, i + 1);
      forall m: nat | i <= m < j
        ensures MatchAt(s, m).None?
      {
        if m == i {
          assert MatchAt(s, i).None?;
        }
      }
    }
  }

  /** The match used is the leftmost one, and there is none exactly when
      no position starts a match. */
  lemma LastOctetIsLeftmost(s: string)
    ensures LastOctetText(s).None? <==> forall j: nat :: MatchAt(s, j).None?
    ensures LastOctetText(s).Some? ==>
      (exists j: nat :: j < |s| && MatchAt(s, j) == LastOctetText(s) &&
         forall m: nat :: m < j ==> MatchAt(s, m).None?)
  {
    LeftmostFromNone(s, 0);
    if LastOctetText(s).Some? {
      var j := LeftmostFromSome(s, 0);
    }
  }

  /** A whitespace-only string holds no dotted quad, so the blank test only
      adds the null case. */
  lemma WhitespaceHasNoQuad(s: string)
    requires IsNullOrWhiteSpace(Some(s))
    ensures LastOctetText(s).None?
  {
    forall j: nat ensures MatchAt(s, j).None? {
      if j < |s| {
        assert IsWhiteSpace(s[j]);
      }
    }
    LastOctetIsLeftmost(s);
  }

  // ---------------------------------------------------------------------
  // Classification: GetIpGroupForAddress

  predicate Contains(g: IpGroup, n: int) {
    exists b :: b in g.blocks && b.min <= n <= b.max
  }

  /** The first group with a block holding n, both ends inclusive. */
  function FirstContaining(groups: seq<IpGroup>, n: int): (r: Option<IpGroup>)
    ensures r.Some? ==> exists k :: 0 <= k < |groups| && groups[k] == r.value && Contains(groups[k], n) &&
                          forall j :: 0 <= j < k ==> !Contains(groups[j], n)
    ensures r.None? <==> forall k :: 0 <= k < |groups| ==> !Contains(groups[k], n)
  {
    if |groups| == 0 then None
    else if Contains(groups[0], n) then Some(groups[0])
    else
      var r := FirstContaining(groups[1..], n);
      assert forall k :: 1 <= k < |groups| ==> groups[k] == groups[1..][k - 1];
      r
  }

  /** The name of the group an address belongs to, or "". Null and blank
      addresses are unclassified; a non-empty answer names a configured
      group with a block holding the address's last octet. */
  function GroupForAddress(groups: seq<IpGroup>, ip: Option<string>): (r: string)
    ensures IsNullOrWhiteSpace(ip) ==> r == ""
    ensures r != "" ==>
              ip.Some? && LastOctetText(ip.value).Some? &&
              exists k :: 0 <= k < |groups| && groups[k].name == r && Contains(groups[k], ParseDigits(LastOctetText(ip.value).value))
  {
    if IsNullOrWhiteSpace(ip) then ""
    else
      match LastOctetText(ip.value)
      case None => ""
      case Some(t) =>
        match FirstContaining(groups, ParseDigits(t))
        case None => ""
        case Some(g) => g.name
  }

  /** Null, blank, and quad-free inputs are unclassified. */
  lemma ClassifyUnmatched(groups: seq<IpGroup>, ip: Option<string>)
    requires IsNullOrWhiteSpace(ip) || forall j: nat :: MatchAt(ip.value, j).None?
    ensures GroupForAddress(groups, ip) == ""
  {
    if !IsNullOrWhiteSpace(ip) {
      LastOctetIsLeftmost(ip.value);
    }
  }

  /** Otherwise the answer is the first group in configuration order with a
      block where min <= last octet <= max, and "" when there is none. */
  lemma ClassifyFirstInclusive(groups: seq<IpGroup>, s: string, k: nat)
    requires !IsNullOrWhiteSpace(Some(s)) && LastOctetText(s).Some?
    requires k < |groups|
    requires Contains(groups[k], ParseDigits(LastOctetText(s).value))
    requires forall j :: 0 <= j < k ==> !Contains(groups[j], ParseDigits(LastOctetText(s).value))
    ensures GroupForAddress(groups, Some(s)) == groups[k].name
  {
    var n := ParseDigits(LastOctetText(s).value);
    var g := FirstContaining(groups, n).value;
    var k' :| 0 <= k' < |groups| && groups[k'] == g && Contains(groups[k'], n) &&
      forall j :: 0 <= j < k' ==> !Contains(groups[j], n);
    assert k' == k;
  }

  /** The first three groups of the pattern match the subnet prefix. */
  lemma PrefixDots(s: string)
    requires |s| >= |SubnetPrefix| && s[..|SubnetPrefix|] == SubnetPrefix
    ensures OctetDot(s, 0) == Some(4) && OctetDot(s, 4) == Some(8) && OctetDot(s, 8) == Some(10)
  {
    assert s[0] == '1' && s[1] == '9' && s[2] == '2' && s[3] == '.';
    assert s[4] == '1' && s[5] == '6' && s[6] == '8' && s[7] == '.';
    assert s[8] == '1' && s[9] == '.';
    RunIs(s, 0, 3);
    RunIs(s, 4, 3);
    RunIs(s, 8, 1);
  }

  /** The leftmost quad of "192.168.1.<n>" followed by anything that does
      not continue the digits has n as its last octet, for 0 <= n <= 999. */
  lemma LastOctetOfAddress(n: nat, rest: string)
    requires n <= 999
    requires |rest| == 0 || !IsDigit(rest[0])
    ensures LastOctetText(AddressOf(n) + rest) == Some(NatToString(n))
  {
    var d := NatToString(n);
    NatToStringShort(n);
    var s := SubnetPrefix + d + rest;
    assert s[..|SubnetPrefix|] == SubnetPrefix;
    PrefixDots(s);
    assert forall j :: 10 <= j < 10 + |d| ==> s[j] == d[j - 10];
    assert 10 + |d| == |s| || s[10 + |d|] == rest[0];
    RunIs(s, 10, |d|);
    assert s[10..10 + |d|] == d;
    assert MatchAt(s, 0) == Some(d);
  }

  /** Classification of an allocatable-looking address: the first group
      holding n inclusively, or "". */
  lemma ClassifyAddressOf(groups: seq<IpGroup>, n: nat)
    requires n <= 999
    ensures GroupForAddress(groups, Some(AddressOf(n))) ==
      match FirstContaining(groups, n) case None => "" case Some(g) => g.name
  {
    LastOctetOfAddress(n, "");
    assert AddressOf(n) + "" == AddressOf(n);
    ParseNatToString(n);
    assert AddressOf(n)[0] == '1';
  }

  /** The unanchored pattern reads "192.168.1.100.1" as octet 100. */
  lemma TrailingOctetIgnored(groups: seq<IpGroup>, n: nat, tail: string)
    requires n <= 999
    ensures GroupForAddress(groups, Some(AddressOf(n) + "." + tail)) ==
      match FirstContaining(groups, n) case None => "" case Some(g) => g.name
  {
    LastOctetOfAddress(n, "." + tail);
    assert AddressOf(n) + "." + tail == AddressOf(n) + ("." + tail);
    ParseNatToString(n);
    assert (AddressOf(n) + "." + tail)[0] == '1';
  }

  /** The two readings of a block disagree at its max: the address
      192.168.1.<max> is classified into the group, yet the group alone
      never hands it out when no other of its blocks covers it. */
  lemma MaxClassifiedButNotAllocated(b: IpBlock, name: string, used: seq<Option<string>>, keys: set<string>)
    requires 0 <= b.min <= b.max <= 999
    ensures GroupForAddress([IpGroup(name, [b])], Some(AddressOf(b.max))) == name
    ensures Allocate([IpGroup(name, [b])], Some(name), used, keys) != AddressOf(b.max)
  {
    var groups := [IpGroup(name, [b])];
    ClassifyAddressOf(groups, b.max);
    assert Contains(groups[0], b.max);
    AllocationNeverAtMaxAlone(groups, Some(name), used, keys, b.max);
  }
}
