/** What a listing says of each session file, and in which order: the statuses, times and costs spelled out. */
module ListedSessions {
  import opened Wrappers
  import opened Bytes
  import opened Integers
  import opened Sorting
  import opened SessionFormat
  import opened Projection
  import opened SessionStore
  import opened SessionList
  import Numerals

  /** The listing of a directory that is not refused. */
  function Listing(codec: Codec, d: Directory, order: seq<Name>): seq<Summary> {
    Sort(Summaries(codec, d, Sort(Candidates(order), IdLe)), Precedes)
  }

  /** The one entry for a file. */
  ghost predicate ListedAs(codec: Codec, d: Directory, order: seq<Name>, entry: Summary) {
    && entry in Listing(codec, d, order)
    && forall other <- Listing(codec, d, order) :: other.sessionId == entry.sessionId ==> other == entry
  }

  lemma ListedAsSummary(codec: Codec, d: Directory, order: seq<Name>, id: string, entry: Summary)
    requires Enumerates(order, d) && ValidId(id) && FileName(id) in d
    requires entry == SummaryOf(id, ShowIn(codec, d, id))
    ensures ListedAs(codec, d, order, entry)
  {
    SummaryNamesItsFile(codec, d, id);
    ListedIffShown(codec, d, order, entry);
    forall other | other in Listing(codec, d, order) && other.sessionId == id ensures other == entry {
      ListedIffShown(codec, d, order, other);
    }
  }

  /** A session that was written up to any byte: corrupt before its user line is complete, then interrupted, a fragment
      being said exactly when bytes follow, and with its ending complete as what it ended in. */
  lemma WrittenSessionsAreListed(
    codec: Codec, d: Directory, order: seq<Name>, s: Session, e: Ending, n: nat)
    requires Enumerates(order, d) && Lawful(codec)
    requires InitialLines(codec, s).Some? && EndingLine(codec, s, e).Some?
    requires var all := InitialLines(codec, s).value + EndingLine(codec, s, e).value;
             && |all| <= MAX_SESSION_BYTES && n <= |all|
             && FileName(s.sessionId) in d && d[FileName(s.sessionId)] == Node(true, false, all[..n])
    ensures var first := InitialLines(codec, s).value;
            var all := first + EndingLine(codec, s, e).value;
            ListedAs(codec, d, order,
                     if n < |first| then Summary(s.sessionId, None, Status.Corrupt, false)
                     else if n < |all| then Summary(s.sessionId, Some(s.createdAt), Status.Interrupted, n > |first|)
                     else Summary(s.sessionId, Some(s.createdAt),
                                  if e.payload.AssistantMessage? then Status.Completed else Status.Failed, false))
  {
    var first, last := InitialLines(codec, s).value, EndingLine(codec, s, e).value;
    WrittenIsSummarised(codec, d, s, e, first, last, n);
    ListedAsSummary(codec, d, order, s.sessionId, SummaryOf(s.sessionId, ShowIn(codec, d, s.sessionId)));
  }

  lemma WrittenIsSummarised(
    codec: Codec, d: Directory, s: Session, e: Ending, first: Bytes, last: Bytes, n: nat)
    requires Lawful(codec) && InitialLines(codec, s) == Some(first) && EndingLine(codec, s, e) == Some(last)
    requires n <= |first + last| <= MAX_SESSION_BYTES
    requires FileName(s.sessionId) in d && d[FileName(s.sessionId)] == Node(true, false, (first + last)[..n])
    ensures ValidId(s.sessionId)
    ensures SummaryOf(s.sessionId, ShowIn(codec, d, s.sessionId))
            == if n < |first| then Summary(s.sessionId, None, Status.Corrupt, false)
               else if n < |first + last| then
                 Summary(s.sessionId, Some(s.createdAt), Status.Interrupted, n > |first|)
               else Summary(s.sessionId, Some(s.createdAt),
                            if e.payload.AssistantMessage? then Status.Completed else Status.Failed, false)
  {
    TornWritesAreRead(codec, s, e, n);
  }

  /** A file that cannot be projected is listed without a time: as busy while its writer holds it, and as unavailable
      where it is not a private file of its own, whatever it holds. */
  lemma LockedFilesAreListedBusy(codec: Codec, d: Directory, order: seq<Name>, id: string, bytes: Bytes)
    requires Enumerates(order, d) && ValidId(id) && FileName(id) in d && d[FileName(id)] == Node(true, true, bytes)
    ensures ListedAs(codec, d, order, Summary(id, None, Status.Busy, false))
  {
    ListedAsSummary(codec, d, order, id, Summary(id, None, Status.Busy, false));
  }

  lemma UntrustedFilesAreListedUnavailable(codec: Codec, d: Directory, order: seq<Name>, id: string)
    requires Enumerates(order, d) && ValidId(id) && FileName(id) in d && !d[FileName(id)].trusted
    ensures ListedAs(codec, d, order, Summary(id, None, Status.Unavailable, false))
  {
    ListedAsSummary(codec, d, order, id, Summary(id, None, Status.Unavailable, false));
  }

  /** Another format version is told apart from corruption, and is all that is. */
  lemma UnreadableFilesAreListed(codec: Codec, d: Directory, order: seq<Name>, id: string, bytes: Bytes)
    requires Enumerates(order, d) && ValidId(id) && FileName(id) in d && d[FileName(id)] == Node(true, false, bytes)
    ensures OtherVersion(codec, bytes) ==> ListedAs(codec, d, order, Summary(id, None, Status.Unsupported, false))
    ensures |bytes| > 3 * 1024 * 1024 || (Project(codec, bytes, id).Err? && !OtherVersion(codec, bytes)) ==>
              ListedAs(codec, d, order, Summary(id, None, Status.Corrupt, false))
  {
    UnsupportedIff(codec, bytes, id);
    if OtherVersion(codec, bytes) {
      ListedAsSummary(codec, d, order, id, Summary(id, None, Status.Unsupported, false));
    }
    if |bytes| > 3 * 1024 * 1024 || (Project(codec, bytes, id).Err? && !OtherVersion(codec, bytes)) {
      ListedAsSummary(codec, d, order, id, Summary(id, None, Status.Corrupt, false));
    }
  }

  /** Which error a session that is not shown gets: a text that is no identifier, no file, a file that is not private,
      one that is held, and one that cannot be read. */
  lemma ErrorsAre(codec: Codec, d: Directory, id: string)
    ensures var shown, name := ShowIn(codec, d, id), Text(id + ".jsonl");
            var isId := |id| == 32 && forall i | 0 <= i < 32 :: '0' <= id[i] <= '9' || 'a' <= id[i] <= 'f';
            && (shown == Err(ShowError.InvalidSessionId) <==> !isId)
            && (shown == Err(ShowError.Missing) <==> isId && name !in d)
            && (shown == Err(ShowError.StoreUnavailable) <==> isId && name in d && !d[name].trusted)
            && (shown == Err(ShowError.Busy) <==> isId && name in d && d[name].trusted && d[name].locked)
            && (isId && name in d && d[name].trusted && !d[name].locked ==>
                  (shown == Err(ShowError.UnsupportedVersion)
                   <==> |d[name].bytes| <= 3145728 && OtherVersion(codec, d[name].bytes)))
  {
    assert ValidId(id) <==> |id| == 32 && forall i | 0 <= i < 32 :: '0' <= id[i] <= '9' || 'a' <= id[i] <= 'f' by {
      assert |id| == 32 ==>
               ((forall c <- id :: Numerals.IsDigit(c)) <==> forall i | 0 <= i < 32 :: Numerals.IsDigit(id[i]));
    }
    if FileName(id) in d {
      UnsupportedIff(codec, d[FileName(id)].bytes, id);
    }
  }

  // ---- the order ----

  /** Newer sessions come first, those of the same time in the order of their identifiers; what has no time comes last,
      in that order too. */
  lemma ListedInOrder(codec: Codec, d: Directory, order: seq<Name>, i: nat, j: nat)
    requires i < j < |Listing(codec, d, order)|
    ensures var a, b := Listing(codec, d, order)[i], Listing(codec, d, order)[j];
            && (a.createdAt.None? ==> b.createdAt.None?)
            && (a.createdAt.Some? && b.createdAt.Some? ==> a.createdAt.value >= b.createdAt.value)
            && (a.createdAt == b.createdAt ==> Alphabetical(a.sessionId, b.sessionId, (c: char) => c as int))
  {
    SummaryOrder();
    SortSorts(Summaries(codec, d, Sort(Candidates(order), IdLe)), Precedes);
    var a, b := Listing(codec, d, order)[i], Listing(codec, d, order)[j];
    LexIsAlphabetical(a.sessionId, b.sessionId, CharRank);
    SameRank(a.sessionId, b.sessionId);
  }

  lemma SameRank(a: string, b: string)
    ensures Alphabetical(a, b, CharRank) <==> Alphabetical(a, b, (c: char) => c as int)
  {
    var rank := (c: char) => c as int;
    assert forall c :: CharRank(c) == rank(c);
  }

  // ---- the cost ----

  /** What is read of each file: nothing of one that is held, not private or too large. */
  function BytesRead(d: Directory, ids: seq<string>): (r: seq<Bytes>)
    requires forall id <- ids :: FileName(id) in d
    ensures |r| == |ids|
    ensures forall i | 0 <= i < |ids| ::
              r[i] == match d[FileName(ids[i])] {
                        case Node(true, false, bytes) => if |bytes| <= 3 * 1024 * 1024 then bytes else []
                        case _ => []
                      }
  {
    seq(|ids|, i requires 0 <= i < |ids| =>
      match d[FileName(ids[i])] {
        case Node(true, false, bytes) => if |bytes| <= 3 * 1024 * 1024 then bytes else []
        case _ => []
      })
  }

  /** The limit on bytes is on what is read, all files together. */
  lemma {:induction false} ChargeIsWhatIsRead(d: Directory, ids: seq<string>)
    requires forall id <- ids :: FileName(id) in d
    ensures TotalCharge(d, ids) == |Concat(BytesRead(d, ids))|
    decreases |ids|
  {
    if ids != [] {
      var front, last := ids[..|ids| - 1], ids[|ids| - 1];
      ChargeIsWhatIsRead(d, front);
      var bytes := BytesRead(d, ids)[|front|];
      assert BytesRead(d, ids) == BytesRead(d, front) + [bytes];
      ConcatAppend(BytesRead(d, front), [bytes]);
      ConcatOne(bytes);
    }
  }
}
