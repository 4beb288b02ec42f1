/**
 Listing a quiescent directory of session files: bounded in its entries, its candidates and the bytes it reads, sorted
 newest first, and in agreement with showing each session.
 */
module SessionList {
  import opened Wrappers
  import opened Bytes
  import opened Integers
  import opened Sorting
  import opened SessionFormat
  import opened Projection
  import opened SessionStore

  datatype Limits = Limits(candidates: nat, directoryEntries: nat, readBytes: nat)

  const LIST_LIMITS := Limits(4096, 4096, 64 * 1024 * 1024)

  // A file name; some are not text.
  datatype Name = Text(text: string) | NotText(tag: nat)

  /** A file as its reader finds it. `trusted`: a regular file with private permissions and no other link; `locked`:
      a writer holds it. */
  datatype Node = Node(trusted: bool, locked: bool, bytes: Bytes)

  type Directory = map<Name, Node>

  datatype Status = Completed | Failed | Interrupted | Busy | Corrupt | Unsupported | Unavailable

  datatype Summary = Summary(sessionId: string, createdAt: Option<U64>, status: Status, trailingFragment: bool)

  datatype ListError = InventoryTooLarge | StoreUnavailable

  // A directory on the way to the files; one that is refused is no directory or is open to others.
  datatype Access = Absent | Refused | Allowed

  const SUFFIX := ".jsonl"

  function FileName(id: string): Name {
    Text(id + SUFFIX)
  }

  /** The identifier of a canonical file name: a valid identifier and the suffix. */
  function CanonicalId(name: Name): (id: Option<string>)
    ensures id.Some? <==> exists i :: ValidId(i) && name == FileName(i)
    ensures id.Some? ==> ValidId(id.value) && name == FileName(id.value)
  {
    if name.NotText? then None
    else if |name.text| < |SUFFIX| || name.text[|name.text| - |SUFFIX|..] != SUFFIX then
      assert forall i :: name == FileName(i) ==> name.text[|i|..] == SUFFIX;
      None
    else
      var id := name.text[..|name.text| - |SUFFIX|];
      assert name.text == id + SUFFIX;
      assert forall i :: name == FileName(i) ==> name.text[..|i|] == i;
      if ValidId(id) then Some(id) else None
  }

  // ---- one file ----

  function Inspect(codec: Codec, node: Node, id: string): Result<ShowResult, ShowError> {
    if !node.trusted then Err(ShowError.StoreUnavailable)
    else if node.locked then Err(ShowError.Busy)
    else if |node.bytes| > MAX_SESSION_BYTES then Err(ShowError.Corrupt)
    else MapProjection(Project(codec, node.bytes, id))
  }

  function ShowIn(codec: Codec, d: Directory, id: string): Result<ShowResult, ShowError> {
    if !ValidId(id) then Err(InvalidSessionId)
    else if FileName(id) !in d then Err(Missing)
    else Inspect(codec, d[FileName(id)], id)
  }

  // What reading a file costs the listing.
  function Charge(node: Node): nat {
    if node.trusted && !node.locked && |node.bytes| <= MAX_SESSION_BYTES then |node.bytes| else 0
  }

  function SummaryOf(id: string, shown: Result<ShowResult, ShowError>): Summary {
    match shown
    case Ok(ShowResult(projection, trailingFragment)) =>
      Summary(projection.sessionId, Some(projection.createdAt),
              match projection.status {
                case Completed => Status.Completed
                case Failed => Status.Failed
                case Interrupted => Status.Interrupted
              }, trailingFragment)
    case Err(error) =>
      Summary(id, None,
              if error.Busy? then Status.Busy
              else if error.UnsupportedVersion? then Status.Unsupported
              else if error.Corrupt? then Status.Corrupt
              else Status.Unavailable, false)
  }

  // ---- the orders ----

  function CharRank(c: char): int {
    c as int
  }

  predicate IdLe(a: string, b: string) {
    LexLe(a, b, CharRank)
  }

  /** Newest first, then by identifier; what cannot be projected comes last, by identifier. */
  predicate Precedes(a: Summary, b: Summary) {
    match (a.createdAt, b.createdAt)
    case (Some(x), Some(y)) => x > y || (x == y && IdLe(a.sessionId, b.sessionId))
    case (Some(_), None) => true
    case (None, Some(_)) => false
    case (None, None) => IdLe(a.sessionId, b.sessionId)
  }

  lemma IdOrder()
    ensures Order(IdLe) && forall a, b :: IdLe(a, b) && IdLe(b, a) ==> a == b
  {
    assert Injective(CharRank);
    forall a, b ensures IdLe(a, b) || IdLe(b, a) { LexTotal(a, b, CharRank); }
    forall a, b, c | IdLe(a, b) && IdLe(b, c) ensures IdLe(a, c) { LexTransitive(a, b, c, CharRank); }
    forall a, b | IdLe(a, b) && IdLe(b, a) ensures a == b { LexAntisymmetric(a, b, CharRank); }
  }

  lemma SummaryOrder()
    ensures Order(Precedes)
    ensures forall a, b :: Precedes(a, b) && Precedes(b, a) ==> a.sessionId == b.sessionId
  {
    IdOrder();
    forall a, b, c | Precedes(a, b) && Precedes(b, c) ensures Precedes(a, c) {
    }
    forall a, b ensures Precedes(a, b) || Precedes(b, a) {
    }
  }

  // ---- the program ----

  /** The directory as it is read: every name once, in any order. */
  ghost predicate Enumerates(order: seq<Name>, d: Directory) {
    && (forall name :: name in order <==> name in d)
    && (forall i, j | 0 <= i < j < |order| :: order[i] != order[j])
  }

  function Candidates(order: seq<Name>): seq<string> {
    if order == [] then []
    else
      var id := CanonicalId(order[|order| - 1]);
      Candidates(order[..|order| - 1]) + (if id.Some? then [id.value] else [])
  }

  function TotalCharge(d: Directory, ids: seq<string>): nat
    requires forall id <- ids :: FileName(id) in d
  {
    if ids == [] then 0 else TotalCharge(d, ids[..|ids| - 1]) + Charge(d[FileName(ids[|ids| - 1])])
  }

  class ListReadBudget {
    var used: nat
    const limit: nat

    constructor (limit: nat)
      ensures used == 0 && this.limit == limit
    {
      this.used, this.limit := 0, limit;
    }

    method Spend(size: nat) returns (ok: bool)
      modifies this
      ensures ok <==> old(used) + size <= limit
      ensures used == if ok then old(used) + size else old(used)
    {
      ok := used + size <= limit;
      if ok {
        used := used + size;
      }
    }
  }

  method CollectCandidateIds(order: seq<Name>, limits: Limits) returns (r: Result<seq<string>, ListError>)
    ensures r == if |order| > limits.directoryEntries || |Candidates(order)| > limits.candidates
                 then Err(InventoryTooLarge) else Ok(Sort(Candidates(order), IdLe))
  {
    var directoryEntries := 0;
    var candidates: seq<string> := [];
    for i := 0 to |order|
      invariant directoryEntries == i <= limits.directoryEntries
      invariant candidates == Candidates(order[..i]) && |candidates| <= limits.candidates
    {
      directoryEntries := directoryEntries + 1;
      if directoryEntries > limits.directoryEntries {
        return Err(InventoryTooLarge);
      }
      assert order[..i + 1][..i] == order[..i];
      var id := CanonicalId(order[i]);
      if id.None? {
        continue;
      }
      if |candidates| + 1 > limits.candidates {
        CandidatesGrow(order, i + 1);
        return Err(InventoryTooLarge);
      }
      candidates := candidates + [id.value];
    }
    assert order[..|order|] == order;
    return Ok(Sort(candidates, IdLe));
  }

  /** The summaries of the candidates in a given order. */
  function Summaries(codec: Codec, d: Directory, ids: seq<string>): (r: seq<Summary>)
    ensures |r| == |ids| && forall i | 0 <= i < |ids| :: r[i] == SummaryOf(ids[i], ShowIn(codec, d, ids[i]))
  {
    Apply(id => SummaryOf(id, ShowIn(codec, d, id)), ids)
  }

  method InspectWithin(codec: Codec, node: Node, id: string, budget: ListReadBudget)
    returns (r: Option<Result<ShowResult, ShowError>>)
    modifies budget
    requires budget.used <= budget.limit
    ensures r == if old(budget.used) + Charge(node) <= budget.limit then Some(Inspect(codec, node, id)) else None
    ensures r.Some? ==> budget.used == old(budget.used) + Charge(node)
  {
    if !node.trusted {
      return Some(Err(ShowError.StoreUnavailable));
    }
    if node.locked {
      return Some(Err(ShowError.Busy));
    }
    var size := |node.bytes|;
    if size > MAX_SESSION_BYTES {
      return Some(Err(ShowError.Corrupt));
    }
    var ok := budget.Spend(size);
    if !ok {
      return None;
    }
    return Some(MapProjection(Project(codec, node.bytes, id)));
  }

  ghost predicate AreFiles(d: Directory, ids: seq<string>) {
    forall id <- ids :: ValidId(id) && FileName(id) in d
  }

  /** What reading the candidates one after the other costs, where `seen(i)` is the directory as it is when the i-th of
      them is opened. A file that is gone by then costs nothing. */
  function SeenCharge(seen: nat -> Directory, ids: seq<string>): nat {
    if ids == [] then 0
    else
      var d, id := seen(|ids| - 1), ids[|ids| - 1];
      SeenCharge(seen, ids[..|ids| - 1]) + (if FileName(id) in d then Charge(d[FileName(id)]) else 0)
  }

  // And it has no entry.
  function SeenSummaries(codec: Codec, seen: nat -> Directory, ids: seq<string>): seq<Summary> {
    if ids == [] then []
    else
      var d, id := seen(|ids| - 1), ids[|ids| - 1];
      SeenSummaries(codec, seen, ids[..|ids| - 1])
      + (if FileName(id) in d then [SummaryOf(id, ShowIn(codec, d, id))] else [])
  }

  // Stops at the first file that the bytes left cannot pay for; then all of them cost too much.
  method SummarizeCandidates(codec: Codec, seen: nat -> Directory, ids: seq<string>, limit: nat)
    returns (r: Result<seq<Summary>, ListError>)
    requires forall id <- ids :: ValidId(id)
    ensures r == if SeenCharge(seen, ids) > limit then Err(InventoryTooLarge)
                 else Ok(Sort(SeenSummaries(codec, seen, ids), Precedes))
  {
    var budget := new ListReadBudget(limit);
    var summaries: seq<Summary> := [];
    for i := 0 to |ids|
      invariant fresh(budget) && budget.limit == limit
      invariant summaries == SeenSummaries(codec, seen, ids[..i])
      invariant budget.used == SeenCharge(seen, ids[..i]) <= limit
    {
      assert ids[..i + 1][..i] == ids[..i];
      assert ids[i] in ids;
      var id, d := ids[i], seen(i);
      if FileName(id) !in d {
        continue;
      }
      SeenChargeGrows(seen, ids, i + 1);
      var inspected := InspectWithin(codec, d[FileName(id)], id, budget);
      if inspected.None? {
        return Err(InventoryTooLarge);
      }
      summaries := summaries + [SummaryOf(id, inspected.value)];
    }
    assert ids[..|ids|] == ids;
    return Ok(Sort(summaries, Precedes));
  }

  /** The listing, given the names in the order in which they are read and the directory as it is at each file. */
  method ListFile(
    codec: Codec, application: Access, sessions: Access, order: seq<Name>, seen: nat -> Directory, limits: Limits)
    returns (r: Result<seq<Summary>, ListError>)
    ensures var ids := Sort(Candidates(order), IdLe);
            r == if application.Refused? || (application.Allowed? && sessions.Refused?)
                 then Err(ListError.StoreUnavailable)
                 else if application.Absent? || sessions.Absent? then Ok([])
                 else if |order| > limits.directoryEntries || |Candidates(order)| > limits.candidates
                         || SeenCharge(seen, ids) > limits.readBytes
                 then Err(InventoryTooLarge)
                 else Ok(Sort(SeenSummaries(codec, seen, ids), Precedes))
  {
    if application.Refused? {
      return Err(ListError.StoreUnavailable);
    }
    if application.Absent? {
      return Ok([]);
    }
    if sessions.Refused? {
      return Err(ListError.StoreUnavailable);
    }
    if sessions.Absent? {
      return Ok([]);
    }
    var collected := CollectCandidateIds(order, limits);
    if collected.Err? {
      return Err(collected.error);
    }
    CandidatesAreFiles(order);
    SameElements(collected.value, Candidates(order));
    r := SummarizeCandidates(codec, seen, collected.value, limits.readBytes);
  }

  /** The listing of a directory that nobody changes meanwhile. */
  method List(codec: Codec, d: Directory, order: seq<Name>) returns (r: Result<seq<Summary>, ListError>)
    requires Enumerates(order, d)
    ensures AreFiles(d, Candidates(order))
    ensures r == if |order| > 4096 || |Candidates(order)| > 4096 || TotalCharge(d, Candidates(order)) > 67108864
                 then Err(InventoryTooLarge)
                 else Ok(Sort(Summaries(codec, d, Sort(Candidates(order), IdLe)), Precedes))
  {
    CandidatesAreFiles(order);
    QuietListing(codec, d, order);
    r := ListFile(codec, Allowed, Allowed, order, i => d, LIST_LIMITS);
  }

  // ---- candidates and charges ----

  lemma {:induction false} CandidatesGrow(order: seq<Name>, k: nat)
    requires k <= |order|
    ensures |Candidates(order[..k])| <= |Candidates(order)|
    decreases |order|
  {
    if k < |order| {
      assert order[..|order| - 1][..k] == order[..k];
      CandidatesGrow(order[..|order| - 1], k);
    } else {
      assert order[..k] == order;
    }
  }

  lemma {:induction false} CandidatesAreFiles(order: seq<Name>)
    ensures forall id :: id in Candidates(order) <==> ValidId(id) && FileName(id) in order
    ensures (forall i, j | 0 <= i < j < |order| :: order[i] != order[j]) ==>
              forall i, j | 0 <= i < j < |Candidates(order)| :: Candidates(order)[i] != Candidates(order)[j]
    decreases |order|
  {
    if order != [] {
      var front, last := order[..|order| - 1], order[|order| - 1];
      assert order == front + [last];
      CandidatesAreFiles(front);
      forall a, b | FileName(a) == FileName(b) ensures a == b {
        FileNamesDiffer(a, b);
      }
      forall id ensures id in Candidates(order) <==> ValidId(id) && FileName(id) in order {
      }
    }
  }

  lemma FileNamesDiffer(a: string, b: string)
    requires FileName(a) == FileName(b)
    ensures a == b
  {
    assert |a| == |b|;
    assert (a + SUFFIX)[..|a|] == a && (b + SUFFIX)[..|b|] == b;
  }

  lemma {:induction false} SeenChargeGrows(seen: nat -> Directory, ids: seq<string>, k: nat)
    requires k <= |ids|
    ensures SeenCharge(seen, ids[..k]) <= SeenCharge(seen, ids)
    decreases |ids|
  {
    if k < |ids| {
      assert ids[..|ids| - 1][..k] == ids[..k];
      SeenChargeGrows(seen, ids[..|ids| - 1], k);
    } else {
      assert ids[..k] == ids;
    }
  }

  // In a directory that does not change every candidate is found.
  lemma {:induction false} QuietReads(codec: Codec, at: nat -> Directory, d: Directory, ids: seq<string>)
    requires AreFiles(d, ids) && forall i :: at(i) == d
    ensures SeenCharge(at, ids) == TotalCharge(d, ids)
    ensures SeenSummaries(codec, at, ids) == Summaries(codec, d, ids)
    decreases |ids|
  {
    if ids != [] {
      var front, last := ids[..|ids| - 1], ids[|ids| - 1];
      assert ids == front + [last] && last in ids && forall id <- front :: id in ids;
      QuietReads(codec, at, d, front);
      assert Summaries(codec, d, ids) == Summaries(codec, d, front) + [SummaryOf(last, ShowIn(codec, d, last))];
    }
  }

  lemma QuietListing(codec: Codec, d: Directory, order: seq<Name>)
    requires Enumerates(order, d)
    ensures AreFiles(d, Candidates(order))
    ensures var ids := Sort(Candidates(order), IdLe);
            && SeenCharge(i => d, ids) == TotalCharge(d, Candidates(order))
            && SeenSummaries(codec, i => d, ids) == Summaries(codec, d, ids)
  {
    CandidatesAreFiles(order);
    var ids := Sort(Candidates(order), IdLe);
    SameElements(ids, Candidates(order));
    ChargeForgetsOrder(d, ids, Candidates(order));
    QuietReads(codec, i => d, d, ids);
  }

  lemma {:induction false} ChargeConcat(d: Directory, a: seq<string>, b: seq<string>)
    requires forall id <- a + b :: FileName(id) in d
    ensures TotalCharge(d, a + b) == TotalCharge(d, a) + TotalCharge(d, b)
    decreases |b|
  {
    if b == [] {
      assert a + b == a;
    } else {
      assert (a + b)[..|a + b| - 1] == a + b[..|b| - 1];
      ChargeConcat(d, a, b[..|b| - 1]);
    }
  }

  lemma ChargeAround(d: Directory, left: seq<string>, x: string, right: seq<string>)
    requires forall id <- left + [x] + right :: FileName(id) in d
    ensures forall id <- left + right :: FileName(id) in d
    ensures TotalCharge(d, left + [x] + right) == TotalCharge(d, left + right) + Charge(d[FileName(x)])
  {
    assert x in left + [x] + right;
    forall id | id in left || id in right ensures FileName(id) in d {
      assert id in left + [x] + right;
    }
    ChargeConcat(d, left, right);
    ChargeConcat(d, left + [x], right);
    assert (left + [x])[..|left|] == left;
  }

  /** The bytes a listing reads do not depend on the order in which it reads them. */
  lemma {:induction false} ChargeForgetsOrder(d: Directory, a: seq<string>, b: seq<string>)
    requires multiset(a) == multiset(b)
    requires forall id <- a :: FileName(id) in d
    requires forall id <- b :: FileName(id) in d
    ensures TotalCharge(d, a) == TotalCharge(d, b)
    decreases |a|
  {
    SameElements(a, b);
    if a != [] {
      var x, front := a[|a| - 1], a[..|a| - 1];
      assert a == front + [x] && multiset(a) == multiset{x} + multiset(front);
      var left, right := Pick(b, x, multiset(front));
      ChargeAround(d, left, x, right);
      assert forall id <- front :: id in a;
      ChargeForgetsOrder(d, front, left + right);
    }
  }

  // ---- list and show ----

  /** One entry for each canonical file and nothing else: the summary of what showing it gives, newest first. */
  lemma ListAgreesWithShow(codec: Codec, d: Directory, order: seq<Name>)
    requires Enumerates(order, d)
    ensures var ids := Candidates(order);
            var listed := Sort(Summaries(codec, d, Sort(ids, IdLe)), Precedes);
            && Sorted(listed, Precedes)
            && (forall id :: id in ids <==> ValidId(id) && FileName(id) in d)
            && (forall i, j | 0 <= i < j < |ids| :: ids[i] != ids[j])
            && multiset(listed) == multiset(Summaries(codec, d, ids))
  {
    CandidatesAreFiles(order);
    SummaryOrder();
    var ids := Candidates(order);
    SortSorts(Summaries(codec, d, Sort(ids, IdLe)), Precedes);
    ApplyPermutes(id => SummaryOf(id, ShowIn(codec, d, id)), Sort(ids, IdLe), ids);
  }

  /** A session that is shown is listed with what is shown, and one that is listed is shown so. */
  lemma ListedIffShown(codec: Codec, d: Directory, order: seq<Name>, entry: Summary)
    requires Enumerates(order, d)
    ensures entry in Sort(Summaries(codec, d, Sort(Candidates(order), IdLe)), Precedes)
            <==> ValidId(entry.sessionId) && FileName(entry.sessionId) in d
                 && entry == SummaryOf(entry.sessionId, ShowIn(codec, d, entry.sessionId))
  {
    ListAgreesWithShow(codec, d, order);
    var ids := Candidates(order);
    var summaries := Summaries(codec, d, ids);
    SameElements(Sort(Summaries(codec, d, Sort(ids, IdLe)), Precedes), summaries);
    if entry in summaries {
      var i :| 0 <= i < |summaries| && summaries[i] == entry;
      SummaryNamesItsFile(codec, d, ids[i]);
      assert ids[i] in ids;
    }
    if entry.sessionId in ids && entry == SummaryOf(entry.sessionId, ShowIn(codec, d, entry.sessionId)) {
      var i :| 0 <= i < |ids| && ids[i] == entry.sessionId;
      assert summaries[i] == entry;
    }
  }

  // A file shows its own identifier or none, so its summary names it.
  lemma SummaryNamesItsFile(codec: Codec, d: Directory, id: string)
    ensures SummaryOf(id, ShowIn(codec, d, id)).sessionId == id
  {
  }

  /** The order in which the directory is read makes no difference. */
  lemma ListForgetsDirectoryOrder(codec: Codec, d: Directory, a: seq<Name>, b: seq<Name>)
    requires Enumerates(a, d) && Enumerates(b, d)
    ensures |a| == |b| && |Candidates(a)| == |Candidates(b)|
    ensures Sort(Candidates(a), IdLe) == Sort(Candidates(b), IdLe)
    ensures forall id <- Candidates(a) + Candidates(b) :: FileName(id) in d
    ensures TotalCharge(d, Candidates(a)) == TotalCharge(d, Candidates(b))
  {
    CandidatesAreFiles(a);
    CandidatesAreFiles(b);
    DistinctPermute(a, b);
    DistinctPermute(Candidates(a), Candidates(b));
    IdOrder();
    SortForgetsOrder(Candidates(a), Candidates(b), IdLe);
    SameElements(a, b);
    SameElements(Candidates(a), Candidates(b));
    ChargeForgetsOrder(d, Candidates(a), Candidates(b));
  }

  lemma {:induction false} DistinctPermute<T>(a: seq<T>, b: seq<T>)
    requires forall x :: x in a <==> x in b
    requires forall i, j | 0 <= i < j < |a| :: a[i] != a[j]
    requires forall i, j | 0 <= i < j < |b| :: b[i] != b[j]
    ensures multiset(a) == multiset(b)
  {
    DistinctCounts(a);
    DistinctCounts(b);
    forall x ensures multiset(a)[x] == multiset(b)[x] {
      assert x in a <==> x in b;
    }
  }

  lemma {:induction false} DistinctCounts<T>(s: seq<T>)
    requires forall i, j | 0 <= i < j < |s| :: s[i] != s[j]
    ensures forall x :: multiset(s)[x] == if x in s then 1 else 0
    decreases |s|
  {
    if s != [] {
      DistinctCounts(s[1..]);
      assert s == [s[0]] + s[1..];
      assert s[0] !in s[1..];
    }
  }

  // ---- the files of the writers ----

  /** The directory that the writers' files make up. */
  function DirectoryOf(s: State): Directory {
    FileNamesAreDistinct();
    map id | id in s.files :: FileName(id) := Node(true, s.files[id].locked, s.files[id].bytes)
  }

  lemma FileNamesAreDistinct()
    ensures forall a, b :: FileName(a) == FileName(b) ==> a == b
  {
    forall a, b | FileName(a) == FileName(b) ensures a == b {
      FileNamesDiffer(a, b);
    }
  }

  /** Showing a session in that directory is showing it in the store, so the listing agrees with that too. */
  lemma DirectoryShowsTheStore(codec: Codec, s: State, id: string)
    ensures ShowIn(codec, DirectoryOf(s), id) == Show(codec, s, id)
  {
    FileNamesAreDistinct();
  }
}
