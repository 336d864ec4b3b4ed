/** Following `nextCursor` from the first page, while the table may change between
    requests. */
module SearchWalk {
  import opened Wrappers
  import opened Numbers
  import opened Ordering
  import opened SearchCriteria
  import opened SearchStatement
  import opened SearchPaging
  import C = CursorCodec
  import T = Timestamps

  /** Page `i` was asked of snapshot `i`, with the cursor page `i - 1` handed on. */
  ghost predicate Walk(ask: Ask, dateOk: string -> bool, snaps: seq<Snapshot>, pages: seq<Response>) {
    && |snaps| == |pages|
    && Runnable(ask.criteria)
    && C.AcceptsPrinted(dateOk)
    && (forall i | 0 <= i < |snaps| :: Sound(snaps[i]))
    && (forall i | 0 <= i < |pages| :: Respond(ask, snaps[i], CursorFor(pages, i), dateOk) == Ok(pages[i]))
    && (forall i | 0 <= i < |pages| - 1 :: pages[i].nextCursor.Some?)
  }

  function CursorFor(pages: seq<Response>, i: nat): Option<string>
    requires i <= |pages|
  {
    if i == 0 then None else pages[i - 1].nextCursor
  }

  /** The last page says there is no other. */
  ghost predicate Finished(pages: seq<Response>) {
    pages != [] && pages[|pages| - 1].nextCursor == None
  }

  function Rows(pages: seq<Response>): seq<Place> {
    if pages == [] then [] else Rows(pages[..|pages| - 1]) + pages[|pages| - 1].rows
  }

  /** Where page `i` starts: just past the last row of the page before it. */
  function StartOf(pages: seq<Response>, i: nat): Option<Place>
    requires i <= |pages|
  {
    if i == 0 || pages[i - 1].rows == [] then None else Some(pages[i - 1].rows[|pages[i - 1].rows| - 1])
  }

  lemma WalkPrefix(ask: Ask, dateOk: string -> bool, snaps: seq<Snapshot>, pages: seq<Response>, n: nat)
    requires Walk(ask, dateOk, snaps, pages) && n <= |pages|
    ensures Walk(ask, dateOk, snaps[..n], pages[..n])
  {
    forall i | 0 <= i < n ensures Respond(ask, snaps[..n][i], CursorFor(pages[..n], i), dateOk) == Ok(pages[..n][i]) {
      assert CursorFor(pages[..n], i) == CursorFor(pages, i);
    }
  }

  lemma FirstAnswer(ask: Ask, s: Snapshot, dateOk: string -> bool)
    requires Printed(s)
    ensures Respond(ask, s, None, dateOk) == Ok(Answer(ask, s, None))
  {
    hide Answer, Printed;
  }

  lemma SoundPrints(s: Snapshot)
    requires Sound(s)
    ensures Printed(s)
  {}

  /** A cursor handed on by one answer makes the next start past its last row. */
  lemma Handover(ask: Ask, s: Snapshot, at: Option<Place>, s': Snapshot, dateOk: string -> bool)
    requires Sound(s) && Sound(s') && C.AcceptsPrinted(dateOk)
    requires Answer(ask, s, at).nextCursor.Some?
    ensures var page := Answer(ask, s, at);
            page.rows != []
            && Respond(ask, s', page.nextCursor, dateOk) == Ok(Answer(ask, s', Some(page.rows[|page.rows| - 1])))
  {
    hide Respond, Resume, Answer, CursorText, C.AcceptsPrinted, Sound, Printed, T.Printable, T.CommonEra;
    SoundPrints(s);
    SoundPrints(s');
    var last := NamesLast(ask, s, at);
    CursorResumes(last, dateOk);
    RespondFrom(ask, s', Some(CursorText(last)), Some(last), dateOk);
  }

  /** A next cursor names the last row of its page. */
  lemma NamesLast(ask: Ask, s: Snapshot, at: Option<Place>) returns (last: Place)
    requires Sound(s) && Printed(s) && Answer(ask, s, at).nextCursor.Some?
    ensures T.Printable(last.key) && T.CommonEra(last.key) && last.id < C.UUIDS
    ensures var page := Answer(ask, s, at);
            page.rows != [] && last == page.rows[|page.rows| - 1] && page.nextCursor == Some(CursorText(last))
  {
    hide PageAt, CursorText, Remaining, Sound, Printed, T.Printable, T.CommonEra;
    var rows := PageAt(ask, s, at).0;
    last := rows[|rows| - 1];
    PageIsFromRemaining(ask, s, at);
    RowPrints(ask, s, at, last);
  }

  /** Page `i` of a walk answers from just past the last row of page `i - 1`. */
  lemma {:induction false} PageAnswers(
    ask: Ask, dateOk: string -> bool, snaps: seq<Snapshot>, pages: seq<Response>, i: nat)
    requires Walk(ask, dateOk, snaps, pages) && i < |pages|
    ensures pages[i] == Answer(ask, snaps[i], StartOf(pages, i))
    ensures i > 0 ==> StartOf(pages, i).Some?
  {
    hide Respond, Answer, C.AcceptsPrinted, Printed, Runnable;
    if i == 0 {
      FirstAnswer(ask, snaps[0], dateOk);
    } else {
      PageAnswers(ask, dateOk, snaps, pages, i - 1);
      Handover(ask, snaps[i - 1], StartOf(pages, i - 1), snaps[i], dateOk);
    }
  }

  /** What a page `rows` with more to come or not says of snapshot `s`. */
  ghost predicate IsPage(ask: Ask, s: Snapshot, at: Option<Place>, page: Response) {
    var rows, sort := page.rows, ask.criteria.sort;
    && Increasing(Order(sort), rows)
    && (forall p | p in rows :: p in Corpus(ask, s) && After(sort, at, p))
    && (page.nextCursor.Some? ==> rows != [] && |rows| == ask.criteria.limit)
    && (forall p | p in Corpus(ask, s) && After(sort, at, p) ::
          p in rows || (page.nextCursor.Some? && Precedes(sort, rows[|rows| - 1], p)))
  }

  lemma WalkPage(ask: Ask, dateOk: string -> bool, snaps: seq<Snapshot>, pages: seq<Response>, i: nat)
    requires Walk(ask, dateOk, snaps, pages) && i < |pages|
    ensures IsPage(ask, snaps[i], StartOf(pages, i), pages[i])
    ensures i > 0 ==> StartOf(pages, i).Some?
  {
    hide Walk, CursorText, After, Corpus, Precedes, StartOf, Printed, Increasing, PageAt;
    var _ := WalkLength(ask, dateOk, snaps, pages);
    PageAnswers(ask, dateOk, snaps, pages, i);
    PageFacts(ask, snaps[i], StartOf(pages, i));
  }

  lemma WalkLength(ask: Ask, dateOk: string -> bool, snaps: seq<Snapshot>, pages: seq<Response>) returns (n: nat)
    requires Walk(ask, dateOk, snaps, pages)
    ensures n == |pages| == |snaps| && ask.criteria.limit >= 1
    ensures forall i | 0 <= i < n - 1 :: pages[i].nextCursor.Some?
  {
    n := |pages|;
  }

  lemma AppendPage(sort: SortOrder, q: seq<Place>, page: seq<Place>, at: Option<Place>)
    requires Increasing(Order(sort), q) && Increasing(Order(sort), page)
    requires at == None ==> q == []
    requires at.Some? ==> forall p | p in q :: p == at.value || Precedes(sort, p, at.value)
    requires forall p | p in page :: After(sort, at, p)
    ensures Increasing(Order(sort), q + page)
    ensures page != [] ==> forall p | p in q + page :: p == page[|page| - 1] || Precedes(sort, p, page[|page| - 1])
  {
    var all := q + page;
    forall i, j | 0 <= i < j < |all| ensures Order(sort)(all[i], all[j]) {
      if i < |q| <= j {
        assert q[i] in q && page[j - |q|] in page;
      } else if j < |q| {
        assert Order(sort)(q[i], q[j]);
      } else {
        assert Order(sort)(page[i - |q|], page[j - |q|]);
      }
    }
    if page != [] {
      forall p | p in all ensures p == page[|page| - 1] || Precedes(sort, p, page[|page| - 1]) {
        var i :| 0 <= i < |all| && all[i] == p;
        if i < |all| - 1 { assert Order(sort)(all[i], all[|all| - 1]); }
      }
    }
  }

  /** Everything returned so far, in the order it was returned, is strictly sorted, and
      the next page starts past all of it. */
  lemma {:induction false} WalkIncreases(ask: Ask, dateOk: string -> bool, snaps: seq<Snapshot>, pages: seq<Response>)
    requires Walk(ask, dateOk, snaps, pages)
    ensures Increasing(Order(ask.criteria.sort), Rows(pages))
    ensures StartOf(pages, |pages|).Some? ==>
              forall p | p in Rows(pages) ::
                p == StartOf(pages, |pages|).value || Precedes(ask.criteria.sort, p, StartOf(pages, |pages|).value)
  {
    hide Walk, Increasing, Corpus, After, Precedes;
    var n := WalkLength(ask, dateOk, snaps, pages);
    if n == 0 {
      EmptySort(Order(ask.criteria.sort), {});
    } else {
      var sort, before, page := ask.criteria.sort, pages[..n - 1], pages[n - 1].rows;
      WalkPrefix(ask, dateOk, snaps, pages, n - 1);
      WalkIncreases(ask, dateOk, snaps[..n - 1], before);
      WalkPage(ask, dateOk, snaps, pages, n - 1);
      assert StartOf(pages, n - 1) == StartOf(before, n - 1);
      AppendPage(sort, Rows(before), page, StartOf(before, n - 1));
    }
  }

  /** However the table changes between the pages, no row is returned twice at the same
      place: one that comes back has had its sort key changed. */
  lemma NoRowTwice(ask: Ask, dateOk: string -> bool, snaps: seq<Snapshot>, pages: seq<Response>, i: nat, j: nat)
    requires Walk(ask, dateOk, snaps, pages)
    requires i < j < |Rows(pages)| && Rows(pages)[i].id == Rows(pages)[j].id
    ensures Rows(pages)[i].key != Rows(pages)[j].key
  {
    WalkIncreases(ask, dateOk, snaps, pages);
    assert Order(ask.criteria.sort)(Rows(pages)[i], Rows(pages)[j]);
  }

  lemma {:induction false} RowsOf(pages: seq<Response>, p: Place)
    ensures p in Rows(pages) <==> exists i | 0 <= i < |pages| :: p in pages[i].rows
  {
    if pages != [] {
      var n := |pages| - 1;
      var before := pages[..n];
      RowsOf(before, p);
      assert forall i | 0 <= i < n :: before[i] == pages[i];
      if p in Rows(before) {
        var i :| 0 <= i < n && p in before[i].rows;
        assert p in pages[i].rows;
      } else {
        assert forall i | 0 <= i < n :: p !in pages[i].rows;
        assert p in Rows(pages) <==> p in pages[n].rows;
      }
    }
  }

  /** A row that matches at the same place at every request is still ahead of the walk
      as long as it has not been returned. */
  lemma {:induction false} StillAhead(
    ask: Ask, dateOk: string -> bool, snaps: seq<Snapshot>, pages: seq<Response>, p: Place, n: nat)
    requires Walk(ask, dateOk, snaps, pages) && n <= |pages|
    requires forall i | 0 <= i < |snaps| :: p in Corpus(ask, snaps[i])
    requires forall i | 0 <= i < n :: p !in pages[i].rows
    ensures After(ask.criteria.sort, StartOf(pages, n), p)
    ensures n > 0 ==> pages[n - 1].nextCursor.Some?
  {
    hide Walk, Corpus, Increasing, Precedes;
    var _ := WalkLength(ask, dateOk, snaps, pages);
    if n > 0 {
      StillAhead(ask, dateOk, snaps, pages, p, n - 1);
      WalkPage(ask, dateOk, snaps, pages, n - 1);
    }
  }

  /** A row that matches, at the same place, at every request of a walk that reached its
      end was returned, and exactly once. */
  lemma ReturnedExactlyOnce(ask: Ask, dateOk: string -> bool, snaps: seq<Snapshot>, pages: seq<Response>, p: Place)
    requires Runnable(ask.criteria) && Walk(ask, dateOk, snaps, pages) && Finished(pages)
    requires forall i | 0 <= i < |snaps| :: p in Corpus(ask, snaps[i])
    ensures exists i :: 0 <= i < |Rows(pages)| && Rows(pages)[i] == p
    ensures forall i, j | 0 <= i < |Rows(pages)| && 0 <= j < |Rows(pages)| && Rows(pages)[i] == Rows(pages)[j] == p ::
              i == j
  {
    hide Walk, Corpus, Rows;
    RowsOf(pages, p);
    if forall i | 0 <= i < |pages| :: p !in pages[i].rows {
      StillAhead(ask, dateOk, snaps, pages, p, |pages|);
    }
    WalkIncreases(ask, dateOk, snaps, pages);
    IncreasingDistinct(Order(ask.criteria.sort), Rows(pages));
  }

  lemma RowsAreInCorpus(ask: Ask, dateOk: string -> bool, s: Snapshot, snaps: seq<Snapshot>, pages: seq<Response>)
    requires Walk(ask, dateOk, snaps, pages)
    requires forall i | 0 <= i < |snaps| :: snaps[i] == s
    ensures forall p | p in Rows(pages) :: p in Corpus(ask, s)
  {
    hide Walk, Corpus, Rows, Increasing;
    var _ := WalkLength(ask, dateOk, snaps, pages);
    forall p | p in Rows(pages) ensures p in Corpus(ask, s) {
      RowsOf(pages, p);
      var i :| 0 <= i < |pages| && p in pages[i].rows;
      WalkPage(ask, dateOk, snaps, pages, i);
    }
  }

  /** Over an unchanging table, walking the pages to the end is sorting the whole result
      once, for every limit and both orders. */
  lemma WalkIsOneSort(ask: Ask, dateOk: string -> bool, s: Snapshot, snaps: seq<Snapshot>, pages: seq<Response>)
    requires Runnable(ask.criteria) && Walk(ask, dateOk, snaps, pages) && Finished(pages)
    requires forall i | 0 <= i < |snaps| :: snaps[i] == s
    ensures StrictTotalOrder(Order(ask.criteria.sort), Corpus(ask, s))
    ensures Rows(pages) == Sort(Order(ask.criteria.sort), Corpus(ask, s))
  {
    hide Walk, Corpus, Rows, Increasing, StrictTotalOrder;
    OrderIsTotal(ask.criteria.sort, Corpus(ask, s));
    WalkIncreases(ask, dateOk, snaps, pages);
    forall p | p in Corpus(ask, s) ensures p in Rows(pages) {
      ReturnedExactlyOnce(ask, dateOk, snaps, pages, p);
    }
    RowsAreInCorpus(ask, dateOk, s, snaps, pages);
    SortUnique(Order(ask.criteria.sort), Corpus(ask, s), Rows(pages));
  }

  lemma {:induction false} FullPages(ask: Ask, dateOk: string -> bool, snaps: seq<Snapshot>, pages: seq<Response>)
    requires Walk(ask, dateOk, snaps, pages)
    ensures pages != [] ==> |Rows(pages)| == (|pages| - 1) * ask.criteria.limit + |pages[|pages| - 1].rows|
    ensures pages != [] && pages[|pages| - 1].nextCursor.Some? ==> |pages[|pages| - 1].rows| == ask.criteria.limit
  {
    hide Walk, Corpus, Increasing, After, StartOf;
    var n := WalkLength(ask, dateOk, snaps, pages);
    if n > 0 {
      WalkPage(ask, dateOk, snaps, pages, n - 1);
      WalkPrefix(ask, dateOk, snaps, pages, n - 1);
      FullPages(ask, dateOk, snaps[..n - 1], pages[..n - 1]);
      if n > 1 {
        assert pages[..n - 1][n - 2].nextCursor.Some?;
      }
    }
  }

  /** The chain ends: over an unchanging table no walk has more pages than fit. */
  lemma WalkEnds(ask: Ask, dateOk: string -> bool, s: Snapshot, snaps: seq<Snapshot>, pages: seq<Response>)
    requires Walk(ask, dateOk, snaps, pages) && pages != []
    requires forall i | 0 <= i < |snaps| :: snaps[i] == s
    ensures (|pages| - 1) * ask.criteria.limit <= |Corpus(ask, s)|
  {
    hide Walk, Corpus, Rows;
    WalkIncreases(ask, dateOk, snaps, pages);
    FullPages(ask, dateOk, snaps, pages);
    RowsAreInCorpus(ask, dateOk, s, snaps, pages);
    IncreasingDistinct(Order(ask.criteria.sort), Rows(pages));
    DistinctSize(Rows(pages));
    SubsetSize(Elements(Rows(pages)), Corpus(ask, s));
  }

  lemma NextAnswers(ask: Ask, dateOk: string -> bool, snaps: seq<Snapshot>, pages: seq<Response>, s: Snapshot)
    requires Walk(ask, dateOk, snaps, pages) && Sound(s)
    requires pages == [] || pages[|pages| - 1].nextCursor.Some?
    ensures Respond(ask, s, CursorFor(pages, |pages|), dateOk) == Ok(Answer(ask, s, StartOf(pages, |pages|)))
  {
    hide Walk, Respond, Answer, C.AcceptsPrinted, Printed;
    var n := |pages|;
    WalkSound(ask, dateOk, snaps, pages);
    if n == 0 {
      FirstAnswer(ask, s, dateOk);
    } else {
      PageAnswers(ask, dateOk, snaps, pages, n - 1);
      Handover(ask, snaps[n - 1], StartOf(pages, n - 1), s, dateOk);
    }
  }

  lemma WalkSound(ask: Ask, dateOk: string -> bool, snaps: seq<Snapshot>, pages: seq<Response>)
    requires Walk(ask, dateOk, snaps, pages)
    ensures C.AcceptsPrinted(dateOk) && |snaps| == |pages|
    ensures pages != [] ==> Sound(snaps[|pages| - 1])
  {
    hide Respond, C.AcceptsPrinted, Printed, Runnable;
  }

  lemma WalkAt(ask: Ask, dateOk: string -> bool, snaps: seq<Snapshot>, pages: seq<Response>, i: nat)
    requires Walk(ask, dateOk, snaps, pages) && i < |pages|
    ensures i < |snaps| && Sound(snaps[i]) && Respond(ask, snaps[i], CursorFor(pages, i), dateOk) == Ok(pages[i])
    ensures i < |pages| - 1 ==> pages[i].nextCursor.Some?
  {
    hide Respond, Printed, Runnable, C.AcceptsPrinted;
  }

  lemma WalkExtends(
    ask: Ask, dateOk: string -> bool, snaps: seq<Snapshot>, pages: seq<Response>, s: Snapshot, page: Response)
    requires Walk(ask, dateOk, snaps, pages) && Runnable(ask.criteria) && C.AcceptsPrinted(dateOk) && Sound(s)
    requires Respond(ask, s, CursorFor(pages, |pages|), dateOk) == Ok(page)
    requires pages == [] || pages[|pages| - 1].nextCursor.Some?
    ensures Walk(ask, dateOk, snaps + [s], pages + [page])
  {
    hide Walk, Respond, Sound, Printed, Runnable, C.AcceptsPrinted;
    var n := WalkLength(ask, dateOk, snaps, pages);
    var snaps', pages' := snaps + [s], pages + [page];
    forall i | 0 <= i < |pages'|
      ensures Sound(snaps'[i]) && Printed(snaps'[i])
      ensures Respond(ask, snaps'[i], CursorFor(pages', i), dateOk) == Ok(pages'[i])
      ensures i < |pages'| - 1 ==> pages'[i].nextCursor.Some?
    {
      assert CursorFor(pages', i) == CursorFor(pages, i);
      if i < n {
        WalkAt(ask, dateOk, snaps, pages, i);
        assert pages'[i] == pages[i] && snaps'[i] == snaps[i];
      }
      SoundPrints(snaps'[i]);
    }
    WalkOf(ask, dateOk, snaps', pages');
  }

  lemma WalkOf(ask: Ask, dateOk: string -> bool, snaps: seq<Snapshot>, pages: seq<Response>)
    requires |snaps| == |pages| && Runnable(ask.criteria) && C.AcceptsPrinted(dateOk)
    requires forall i | 0 <= i < |pages| ::
               && Sound(snaps[i]) && Printed(snaps[i])
               && Respond(ask, snaps[i], CursorFor(pages, i), dateOk) == Ok(pages[i])
               && (i < |pages| - 1 ==> pages[i].nextCursor.Some?)
    ensures Walk(ask, dateOk, snaps, pages)
  {
    hide Respond, Sound, Printed, Runnable, C.AcceptsPrinted;
  }

  /** And it never breaks off: after a page with a next cursor there is another page. */
  lemma WalkGoesOn(ask: Ask, dateOk: string -> bool, snaps: seq<Snapshot>, pages: seq<Response>, s: Snapshot)
    requires Walk(ask, dateOk, snaps, pages) && Sound(s)
    requires pages == [] || pages[|pages| - 1].nextCursor.Some?
    ensures exists page :: Walk(ask, dateOk, snaps + [s], pages + [page])
  {
    hide Respond, Answer, Sound, Printed, Runnable, C.AcceptsPrinted, StartOf;
    SoundPrints(s);
    NextAnswers(ask, dateOk, snaps, pages, s);
    WalkExtends(ask, dateOk, snaps, pages, s, Answer(ask, s, StartOf(pages, |pages|)));
  }
}
