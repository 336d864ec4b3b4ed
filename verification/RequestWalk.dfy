/** Walking the pages as a client does: the same request again and again, each time with
    the cursor the last page handed on. */
module RequestWalk {
  import opened Wrappers
  import opened Ordering
  import opened Schema
  import opened SearchCriteria
  import opened SearchStatement
  import opened SearchPaging
  import opened SearchWalk
  import opened SearchMeaning
  import opened SearchRequests
  import C = CursorCodec
  import L = LikePattern
  import N = Numbers

  /** Page `i` was served from snapshot `i`, with the cursor of page `i - 1`. */
  ghost predicate ClientWalk(
    fold: char -> char, owner: nat, r: Request, dateOk: string -> bool, snaps: seq<Snapshot>, pages: seq<Response>)
  {
    && |snaps| == |pages|
    && C.AcceptsPrinted(dateOk)
    && (forall i | 0 <= i < |snaps| :: Sound(snaps[i]))
    && (forall i | 0 <= i < |pages| :: Serve(fold, owner, r, CursorFor(pages, i), snaps[i], dateOk) == Ok(pages[i]))
    && (forall i | 0 <= i < |pages| - 1 :: pages[i].nextCursor.Some?)
  }

  lemma RequestIsRunnable(fold: char -> char, owner: nat, r: Request, dateOk: string -> bool)
    requires CriteriaOf(r, None, dateOk).Ok?
    ensures var c := AskOf(fold, owner, r, dateOk).criteria;
            && Runnable(c) && c.limit == PageSize(r) && (c.sort == ByDue <==> DueView(r))
  {
    match r
    case Find(q, status, due, limit) =>
      hide ParseTerm, ParseStatus, ParseDue, ParseCursor;
    case Show(view, limit) =>
      hide ParseCursor;
  }

  /** 25 rows a page, or the number asked for. */
  function PageSize(r: Request): int {
    match r.limit case None => 25 case Some(n) => n
  }

  /** Today, upcoming and overdue are the views by due date. */
  predicate DueView(r: Request) {
    r.Show? && (r.view == "today" || r.view == "upcoming" || r.view == "overdue")
  }

  /** What a client walks is a walk of the request's criteria. */
  lemma ClientWalkIsWalk(
    fold: char -> char, owner: nat, r: Request, dateOk: string -> bool, snaps: seq<Snapshot>, pages: seq<Response>)
    requires CriteriaOf(r, None, dateOk).Ok?
    ensures ClientWalk(fold, owner, r, dateOk, snaps, pages)
       <==> Walk(AskOf(fold, owner, r, dateOk), dateOk, snaps, pages)
  {
    hide Serve, Respond, CriteriaOf, AskOf, Sound, Printed, Runnable, C.AcceptsPrinted;
    RequestIsRunnable(fold, owner, r, dateOk);
    if |snaps| == |pages| && forall i | 0 <= i < |snaps| :: Sound(snaps[i]) {
      forall i | 0 <= i < |pages|
        ensures Printed(snaps[i])
        ensures Serve(fold, owner, r, CursorFor(pages, i), snaps[i], dateOk) == Ok(pages[i])
           <==> Respond(AskOf(fold, owner, r, dateOk), snaps[i], CursorFor(pages, i), dateOk) == Ok(pages[i])
      {
        SoundPrints(snaps[i]);
        ServeIsRespond(fold, owner, r, CursorFor(pages, i), snaps[i], dateOk, pages[i]);
      }
    }
  }

  lemma ServedMeansAccepted(
    fold: char -> char, owner: nat, r: Request, dateOk: string -> bool, snaps: seq<Snapshot>, pages: seq<Response>)
    requires ClientWalk(fold, owner, r, dateOk, snaps, pages) && pages != []
    ensures CriteriaOf(r, None, dateOk).Ok?
  {
    hide CriteriaOf, C.AcceptsPrinted, Cut, Execute;
    assert CursorFor(pages, 0) == None;
    assert Serve(fold, owner, r, CursorFor(pages, 0), snaps[0], dateOk) == Ok(pages[0]);
  }

  // ---------- what the pages hold ----------

  /** What the request asks for. */
  ghost predicate Asked(fold: char -> char, owner: nat, r: Request, s: Snapshot, t: Task) {
    match r
    case Find(q, status, due, limit) =>
      SearchAsks(RawQuery(q, status, due, limit, None), fold, owner, s.now, s.zone, t)
    case Show(view, limit) => ViewAsks(view, owner, s.now, s.zone, t)
  }

  /** Due dates ascending in the views by due date, and newest first otherwise. */
  predicate InOrder(r: Request, a: Task, b: Task) {
    if DueView(r) then
      a.dueAt.Some? && b.dueAt.Some?
      && (a.dueAt.value < b.dueAt.value || (a.dueAt.value == b.dueAt.value && a.id < b.id))
    else a.createdAt > b.createdAt || (a.createdAt == b.createdAt && a.id > b.id)
  }

  ghost predicate Modern(s: Snapshot) {
    && ModernDay(s.zone, s.now)
    && forall id | id in s.tasks :: s.tasks[id].dueAt.Some? ==> ModernDay(s.zone, s.tasks[id].dueAt.value)
  }

  lemma AskedIsMatched(fold: char -> char, owner: nat, r: Request, dateOk: string -> bool, s: Snapshot, id: nat)
    requires L.KeepsMeta(fold) && CriteriaOf(r, None, dateOk).Ok? && Modern(s) && id in s.tasks
    ensures var ask := AskOf(fold, owner, r, dateOk);
            Matches(ask.fold, ask.owner, ask.criteria, s.now, s.zone, s.tasks[id])
            <==> Asked(fold, owner, r, s, s.tasks[id])
  {
    hide Matches, SearchAsks, ViewAsks, ParseCriteria, ViewCriteria, L.KeepsMeta, ModernDay;
    match r
    case Find(q, status, due, limit) =>
      SearchFindsWhatWasAsked(RawQuery(q, status, due, limit, None), dateOk, fold, owner, s.now, s.zone, s.tasks[id]);
    case Show(view, limit) =>
      ViewsShowWhatTheClientSays(view, limit, None, dateOk, fold, owner, s.now, s.zone, s.tasks[id]);
  }

  /** The ids in the result are those of the tasks asked for. */
  lemma CorpusIsAsked(fold: char -> char, owner: nat, r: Request, dateOk: string -> bool, s: Snapshot)
    requires L.KeepsMeta(fold) && CriteriaOf(r, None, dateOk).Ok? && Modern(s)
    ensures forall p | p in Corpus(AskOf(fold, owner, r, dateOk), s) :: PlacedBy(r, s, p)
    ensures forall id :: (exists p :: p in Corpus(AskOf(fold, owner, r, dateOk), s) && p.id == id)
                    <==> id in s.tasks && Asked(fold, owner, r, s, s.tasks[id])
  {
    hide CriteriaOf, Matches, Asked, Modern, Runnable, L.KeepsMeta;
    var ask := AskOf(fold, owner, r, dateOk);
    RequestIsRunnable(fold, owner, r, dateOk);
    forall p | p in Corpus(ask, s) ensures PlacedBy(r, s, p) { assert MatchesAt(ask, s, p); }
    forall id
      ensures (exists p :: p in Corpus(ask, s) && p.id == id)
         <==> id in s.tasks && Asked(fold, owner, r, s, s.tasks[id])
    {
      if id in s.tasks {
        AskedIsMatched(fold, owner, r, dateOk, s, id);
        if Asked(fold, owner, r, s, s.tasks[id]) { NothingWithoutAPlace(ask, s, id); }
      }
      if p :| p in Corpus(ask, s) && p.id == id { assert MatchesAt(ask, s, p); }
    }
  }

  /** The place is the task's own: its due date, or its creation, and its id. */
  predicate PlacedBy(r: Request, s: Snapshot, p: Place) {
    p.id in s.tasks && Some(p.key) == if DueView(r) then s.tasks[p.id].dueAt else Some(s.tasks[p.id].createdAt)
  }

  lemma PlacesInOrder(
    fold: char -> char, owner: nat, r: Request, dateOk: string -> bool, s: Snapshot, p: Place, q: Place)
    requires CriteriaOf(r, None, dateOk).Ok? && PlacedBy(r, s, p) && PlacedBy(r, s, q)
    requires Precedes(AskOf(fold, owner, r, dateOk).criteria.sort, p, q)
    ensures InOrder(r, s.tasks[p.id], s.tasks[q.id])
  {
    RequestIsRunnable(fold, owner, r, dateOk);
    hide CriteriaOf, Runnable;
  }

  /** Walked to the end over an unchanging table, the pages are one sort of the tasks asked
      for: they hold exactly those, each once, in the request's order. */
  lemma PagesAreOneSort(
    fold: char -> char, owner: nat, r: Request, dateOk: string -> bool, s: Snapshot,
    snaps: seq<Snapshot>, pages: seq<Response>)
    requires L.KeepsMeta(fold) && Modern(s)
    requires ClientWalk(fold, owner, r, dateOk, snaps, pages) && Finished(pages)
    requires forall i | 0 <= i < |snaps| :: snaps[i] == s
    ensures forall id :: (exists p :: p in Rows(pages) && p.id == id)
                    <==> id in s.tasks && Asked(fold, owner, r, s, s.tasks[id])
    ensures forall i, j | 0 <= i < j < |Rows(pages)| ::
              var p, q := Rows(pages)[i], Rows(pages)[j];
              p.id in s.tasks && q.id in s.tasks && InOrder(r, s.tasks[p.id], s.tasks[q.id])
  {
    hide ClientWalk, Walk, CriteriaOf, AskOf, Corpus, Asked, Modern, Rows, StrictTotalOrder, Increasing, Runnable;
    hide PlacedBy, InOrder, Precedes, L.KeepsMeta, Elements;
    ServedMeansAccepted(fold, owner, r, dateOk, snaps, pages);
    var ask := AskOf(fold, owner, r, dateOk);
    ClientWalkIsWalk(fold, owner, r, dateOk, snaps, pages);
    RequestIsRunnable(fold, owner, r, dateOk);
    WalkIsOneSort(ask, dateOk, s, snaps, pages);
    CorpusIsAsked(fold, owner, r, dateOk, s);
    SortedMembers(ask, s, Rows(pages));
    forall i, j | 0 <= i < j < |Rows(pages)|
      ensures var p, q := Rows(pages)[i], Rows(pages)[j];
              PlacedBy(r, s, p) && PlacedBy(r, s, q) && InOrder(r, s.tasks[p.id], s.tasks[q.id])
    {
      PlacesInOrder(fold, owner, r, dateOk, s, Rows(pages)[i], Rows(pages)[j]);
    }
    assert forall p | PlacedBy(r, s, p) :: p.id in s.tasks by { PlacedAreThere(r, s); }
  }

  lemma PlacedAreThere(r: Request, s: Snapshot)
    ensures forall p | PlacedBy(r, s, p) :: p.id in s.tasks
  {}

  lemma SortedMembers(ask: Ask, s: Snapshot, rows: seq<Place>)
    requires StrictTotalOrder(Order(ask.criteria.sort), Corpus(ask, s))
    requires rows == Sort(Order(ask.criteria.sort), Corpus(ask, s))
    ensures forall p :: p in rows <==> p in Corpus(ask, s)
    ensures forall i, j | 0 <= i < j < |rows| :: Precedes(ask.criteria.sort, rows[i], rows[j])
    ensures forall i | 0 <= i < |rows| :: rows[i] in Corpus(ask, s)
  {
    hide Corpus, StrictTotalOrder, Precedes;
    forall p ensures p in rows <==> p in Corpus(ask, s) { assert p in rows <==> p in Elements(rows); }
    forall i, j | 0 <= i < j < |rows| ensures Precedes(ask.criteria.sort, rows[i], rows[j]) {
      assert Order(ask.criteria.sort)(rows[i], rows[j]);
    }
  }

  /** Every page with a next one is full: 25 rows, or the number asked for; the last holds
      no more. */
  lemma PageSizes(
    fold: char -> char, owner: nat, r: Request, dateOk: string -> bool,
    snaps: seq<Snapshot>, pages: seq<Response>, i: nat)
    requires ClientWalk(fold, owner, r, dateOk, snaps, pages) && i < |pages|
    ensures |pages[i].rows| <= PageSize(r)
    ensures pages[i].nextCursor.Some? ==> |pages[i].rows| == PageSize(r)
  {
    hide CriteriaOf, AskOf, Walk, ClientWalk, Runnable;
    ServedMeansAccepted(fold, owner, r, dateOk, snaps, pages);
    ClientWalkIsWalk(fold, owner, r, dateOk, snaps, pages);
    RequestIsRunnable(fold, owner, r, dateOk);
    var ask := AskOf(fold, owner, r, dateOk);
    hide Respond, Answer, Corpus, Increasing, Precedes;
    WalkPage(ask, dateOk, snaps, pages, i);
    var n := WalkLength(ask, dateOk, snaps, pages);
    PageAnswers(ask, dateOk, snaps, pages, i);
    SnapIsSound(fold, owner, r, dateOk, snaps, pages, i);
    AnswerSize(ask, snaps[i], StartOf(pages, i));
  }

  lemma SnapIsSound(
    fold: char -> char, owner: nat, r: Request, dateOk: string -> bool,
    snaps: seq<Snapshot>, pages: seq<Response>, i: nat)
    requires ClientWalk(fold, owner, r, dateOk, snaps, pages) && i < |pages|
    ensures i < |snaps| && Printed(snaps[i])
  {
    hide Serve, C.AcceptsPrinted;
    assert Sound(snaps[i]);
  }

  lemma AnswerSize(ask: Ask, s: Snapshot, at: Option<Place>)
    requires Printed(s)
    ensures |Answer(ask, s, at).rows| <= ask.criteria.limit
  {
    hide Fetch, CursorText, Printed;
  }

  // ---------- the walk goes on, and ends ----------

  /** An accepted request is served, and after a page with a next cursor another comes. */
  lemma NextPageComes(
    fold: char -> char, owner: nat, r: Request, dateOk: string -> bool, snaps: seq<Snapshot>, pages: seq<Response>,
    s: Snapshot)
    requires CriteriaOf(r, None, dateOk).Ok? && Sound(s) && C.AcceptsPrinted(dateOk)
    requires ClientWalk(fold, owner, r, dateOk, snaps, pages)
    requires pages == [] || pages[|pages| - 1].nextCursor.Some?
    ensures exists page :: ClientWalk(fold, owner, r, dateOk, snaps + [s], pages + [page])
  {
    hide CriteriaOf, AskOf, Walk, ClientWalk, Sound, C.AcceptsPrinted;
    var ask := AskOf(fold, owner, r, dateOk);
    ClientWalkIsWalk(fold, owner, r, dateOk, snaps, pages);
    WalkGoesOn(ask, dateOk, snaps, pages, s);
    var page :| Walk(ask, dateOk, snaps + [s], pages + [page]);
    ClientWalkIsWalk(fold, owner, r, dateOk, snaps + [s], pages + [page]);
  }

  /** Over an unchanging table a client is not sent round: the pages before the last are
      full, and together hold no more than the tasks there are. */
  lemma PagesEnd(
    fold: char -> char, owner: nat, r: Request, dateOk: string -> bool, s: Snapshot,
    snaps: seq<Snapshot>, pages: seq<Response>)
    requires ClientWalk(fold, owner, r, dateOk, snaps, pages) && pages != []
    requires forall i | 0 <= i < |snaps| :: snaps[i] == s
    ensures (|pages| - 1) * PageSize(r) <= |s.tasks|
  {
    hide CriteriaOf, AskOf, Walk, ClientWalk, Runnable, Corpus;
    ServedMeansAccepted(fold, owner, r, dateOk, snaps, pages);
    var ask := AskOf(fold, owner, r, dateOk);
    ClientWalkIsWalk(fold, owner, r, dateOk, snaps, pages);
    RequestIsRunnable(fold, owner, r, dateOk);
    WalkEnds(ask, dateOk, s, snaps, pages);
    CorpusFits(ask, s);
  }

  lemma CorpusFits(ask: Ask, s: Snapshot)
    ensures |Corpus(ask, s)| <= |s.tasks|
  {
    hide Matches;
    var ids := set p | p in Corpus(ask, s) :: p.id;
    assert ids <= s.tasks.Keys by {
      forall id | id in ids ensures id in s.tasks {
        var p :| p in Corpus(ask, s) && p.id == id;
        assert MatchesAt(ask, s, p);
      }
    }
    OneIdEach(ask, s, Corpus(ask, s), ids);
    assert |s.tasks.Keys| == |s.tasks|;
    N.SubsetSize(ids, s.tasks.Keys);
  }

  lemma {:induction false} OneIdEach(ask: Ask, s: Snapshot, places: set<Place>, ids: set<nat>)
    requires places <= Corpus(ask, s) && ids == set p | p in places :: p.id
    ensures |ids| == |places|
    decreases places
  {
    if places != {} {
      var p :| p in places;
      forall q | q in places && q.id == p.id ensures q == p {
        assert MatchesAt(ask, s, p) && MatchesAt(ask, s, q);
      }
      OneIdEach(ask, s, places - {p}, ids - {p.id});
    }
  }
}
