/**
 * The search pipeline (deps32.py, amazon_searcher, lines 86-168): for each
 * query in order, collect its links, run one extraction task per link and
 * merge the results into `specs` in the order the tasks complete.
 *
 * The thread pool is modelled by its observable effect: each submitted task
 * is given what its browser meets, and the completion order is an input.
 */
module Aggregate {
  import opened Wrappers
  import opened Listing
  import opened Product

  /** The result set: product title to record. */
  type Specs = map<string, Record>

  /** What the task for one link meets: its driver fails to start (line 30 is
      outside the try block, so future.result() raises), or it loads a page. */
  datatype TaskRun = Crashed | Ran(page: ProductPage)

  /** How a completed task looks to the merge loop: future.result() raises,
      or it returns a title and a record, either of which may be None. */
  datatype Outcome = Raised | Returned(title: Option<string>, data: Option<Record>)

  /**
   * One query as the browser answers it: its listing pages, what the task
   * submitted for the i-th collected link meets (runs[i]), and the order in
   * which the tasks complete (order[j] is the submission index of the j-th
   * task to complete).
   */
  datatype Query = Query(pages: seq<PageVisit>, runs: seq<TaskRun>, order: seq<nat>)

  /** The outcome of the task for one link. */
  function TaskOutcome(link: string, run: TaskRun): Outcome
  {
    match run
    case Crashed => Raised
    case Ran(page) => Returned(Scrape(link, page).0, Scrape(link, page).1)
  }

  /** The merge writes a result exactly when the title and the record are
      both truthy (line 154): present, and not the empty string or map. */
  predicate Accepted(o: Outcome)
  {
    o.Returned? && o.title.Some? && o.title.value != "" && o.data.Some? && o.data.value != map[]
  }

  function Merge(specs: Specs, o: Outcome): Specs
  {
    if Accepted(o) then specs[o.title.value := o.data.value] else specs
  }

  /** Merging outcomes in completion order. */
  function MergeAll(specs: Specs, outs: seq<Outcome>): Specs
  {
    if outs == [] then specs else Merge(MergeAll(specs, outs[..|outs| - 1]), outs[|outs| - 1])
  }

  /** The titles the accepted outcomes write. */
  function AcceptedTitles(outs: seq<Outcome>): set<string>
  {
    set j | 0 <= j < |outs| && Accepted(outs[j]) :: outs[j].title.value
  }

  /** as_completed yields every submitted task exactly once. */
  predicate IsCompletionOrder(order: seq<nat>, n: nat)
  {
    && |order| == n
    && (forall j :: 0 <= j < |order| ==> order[j] < n)
    && (forall j, k :: 0 <= j < k < |order| ==> order[j] != order[k])
  }

  /** A query description is consistent: one task per collected link, and a
      completion order over those tasks. */
  predicate WellFormed(q: Query)
  {
    |q.runs| == |Collected(q.pages)| && IsCompletionOrder(q.order, |q.runs|)
  }

  predicate AllWellFormed(qs: seq<Query>)
  {
    forall i :: 0 <= i < |qs| ==> WellFormed(qs[i])
  }

  /** The outcomes of a batch, in completion order. */
  function BatchOutcomes(links: seq<string>, runs: seq<TaskRun>, order: seq<nat>): (outs: seq<Outcome>)
    requires |runs| == |links|
    requires forall j :: 0 <= j < |order| ==> order[j] < |links|
    ensures |outs| == |order|
  {
    if order == [] then []
    else
      var n := |order| - 1;
      BatchOutcomes(links, runs, order[..n]) + [TaskOutcome(links[order[n]], runs[order[n]])]
  }

  /** The j-th outcome of a batch is that of the task for the link submitted
      at position order[j]. */
  lemma {:induction false} BatchOutcomesAt(links: seq<string>, runs: seq<TaskRun>, order: seq<nat>, j: nat)
    requires |runs| == |links|
    requires forall k :: 0 <= k < |order| ==> order[k] < |links|
    requires j < |order|
    ensures BatchOutcomes(links, runs, order)[j] == TaskOutcome(links[order[j]], runs[order[j]])
    decreases |order|
  {
    var n := |order| - 1;
    if j < n {
      BatchOutcomesAt(links, runs, order[..n], j);
    }
  }

  /** One query: None when the fault of the first navigation escapes. */
  function RunQuery(specs: Specs, q: Query): Option<Specs>
    requires WellFormed(q)
  {
    if FirstPageFails(q.pages) then None
    else Some(MergeAll(specs, BatchOutcomes(Collected(q.pages), q.runs, q.order)))
  }

  /** The whole search over a list of queries, starting from empty specs. */
  function Search(qs: seq<Query>): Option<Specs>
    requires AllWellFormed(qs)
    decreases |qs|
  {
    if qs == [] then Some(map[])
    else
      match Search(qs[..|qs| - 1])
      case None => None
      case Some(specs) => RunQuery(specs, qs[|qs| - 1])
  }

  /** Every link collected across the queries. */
  function AllLinks(qs: seq<Query>): set<string>
    decreases |qs|
  {
    if qs == [] then {}
    else
      var links := Collected(qs[|qs| - 1].pages);
      AllLinks(qs[..|qs| - 1]) + set k | 0 <= k < |links| :: links[k]
  }

  /** Every record carries a product_link drawn from links and a price. */
  ghost predicate Linked(specs: Specs, links: set<string>)
  {
    forall t :: t in specs ==>
      LinkKey in specs[t] && specs[t][LinkKey] in links && PriceKey in specs[t]
  }

  /**
   * The completion loop of lines 149-160 for one batch: each completed task
   * is counted, and its result is written under its title when both title
   * and record are truthy; a task that raises is skipped.
   */
  method MergeBatch(specs: Specs, links: seq<string>, runs: seq<TaskRun>, order: seq<nat>)
    returns (r: Specs, completed: nat)
    requires |runs| == |links| && IsCompletionOrder(order, |links|)
    ensures r == MergeAll(specs, BatchOutcomes(links, runs, order))
    ensures completed == |links|
  {
    r, completed := specs, 0;
    var j := 0;
    while j < |order|
      invariant 0 <= j <= |order| && completed == j
      invariant r == MergeAll(specs, BatchOutcomes(links, runs, order[..j]))
    {
      var idx := order[j];
      completed := completed + 1;
      BatchStep(links, runs, order, j);
      ghost var before := r;
      ghost var outcome := TaskOutcome(links[idx], runs[idx]);
      MergeAllStep(specs, BatchOutcomes(links, runs, order[..j]), outcome);
      match runs[idx] {
        case Crashed =>  // future.result() raises: counted, skipped
        case Ran(page) =>
          var title, data := ScrapeSingleProduct(links[idx], page);
          assert outcome == Returned(title, data);
          if title.Some? && title.value != "" && data.Some? && data.value != map[] {
            r := r[title.value := data.value];
          }
      }
      assert r == Merge(before, outcome);
      j := j + 1;
    }
    assert order[..|order|] == order;
  }

  lemma MergeAllStep(specs: Specs, outs: seq<Outcome>, o: Outcome)
    ensures MergeAll(specs, outs + [o]) == Merge(MergeAll(specs, outs), o)
  {
  }

  lemma BatchStep(links: seq<string>, runs: seq<TaskRun>, order: seq<nat>, j: nat)
    requires |runs| == |links| && j < |order|
    requires forall k :: 0 <= k < |order| ==> order[k] < |links|
    ensures BatchOutcomes(links, runs, order[..j + 1])
         == BatchOutcomes(links, runs, order[..j]) + [TaskOutcome(links[order[j]], runs[order[j]])]
  {
    assert order[..j + 1][..j] == order[..j];
  }

  /**
   * amazon_searcher over abstract queries: the per-query link collection and
   * batch merge, with `specs` carried from query to query. None when the
   * first navigation of some query raises, which ends the whole search.
   */
  method AmazonSearcher(queries: seq<Query>) returns (r: Option<Specs>)
    requires AllWellFormed(queries)
    ensures r == Search(queries)
  {
    var specs: Specs := map[];
    var i := 0;
    while i < |queries|
      invariant 0 <= i <= |queries|
      invariant Search(queries[..i]) == Some(specs)
    {
      var q := queries[i];
      assert queries[..i + 1][..i] == queries[..i];
      var links := CollectLinks(q.pages);
      if links.None? {
        SearchPrefix(queries, i + 1);
        return None;
      }
      var completed;
      specs, completed := MergeBatch(specs, links.value, q.runs, q.order);
      i := i + 1;
    }
    assert queries[..|queries|] == queries;
    r := Some(specs);
  }

  /** A task's result is written exactly when the task ran and its title was
      found with non-empty text: a found title always comes with a record. */
  lemma AcceptedTask(link: string, run: TaskRun)
    ensures Accepted(TaskOutcome(link, run))
        <==> run.Ran? && run.page.title.Some? && run.page.title.value != ""
  {
    if run.Ran? && run.page.title.Some? {
      assert LinkKey in Assemble(link, run.page);
    }
  }

  /** The keys after a merge are the earlier keys and the accepted titles:
      nothing is ever removed. */
  lemma {:induction false} MergeAllKeys(specs: Specs, outs: seq<Outcome>)
    ensures MergeAll(specs, outs).Keys == specs.Keys + AcceptedTitles(outs)
    decreases |outs|
  {
    if outs != [] {
      var n := |outs| - 1;
      MergeAllKeys(specs, outs[..n]);
      assert AcceptedTitles(outs) == AcceptedTitles(outs[..n])
        + (if Accepted(outs[n]) then {outs[n].title.value} else {}) by {
        forall t | t in AcceptedTitles(outs)
          ensures t in AcceptedTitles(outs[..n]) || (Accepted(outs[n]) && t == outs[n].title.value)
        {
          var j :| 0 <= j < |outs| && Accepted(outs[j]) && outs[j].title.value == t;
          if j < n {
            assert outs[..n][j] == outs[j];
          }
        }
        forall t | t in AcceptedTitles(outs[..n]) ensures t in AcceptedTitles(outs) {
          var j :| 0 <= j < n && Accepted(outs[..n][j]) && outs[..n][j].title.value == t;
          assert outs[j] == outs[..n][j];
        }
      }
    }
  }

  /** The last accepted result under a title is the one that stays: the task
      that completes last wins. */
  lemma {:induction false} MergeAllLastWins(specs: Specs, outs: seq<Outcome>, i: nat)
    requires i < |outs| && Accepted(outs[i])
    requires forall j :: i < j < |outs| && Accepted(outs[j]) ==> outs[j].title != outs[i].title
    ensures outs[i].title.value in MergeAll(specs, outs)
    ensures MergeAll(specs, outs)[outs[i].title.value] == outs[i].data.value
    decreases |outs|
  {
    var n := |outs| - 1;
    if i < n {
      MergeAllLastWins(specs, outs[..n], i);
    }
  }

  /** A title no accepted result carries keeps its earlier record, or stays
      absent. */
  lemma {:induction false} MergeAllUntouched(specs: Specs, outs: seq<Outcome>, t: string)
    requires forall j :: 0 <= j < |outs| && Accepted(outs[j]) ==> outs[j].title.value != t
    ensures t in MergeAll(specs, outs) <==> t in specs
    ensures t in specs ==> MergeAll(specs, outs)[t] == specs[t]
    decreases |outs|
  {
    if outs != [] {
      MergeAllUntouched(specs, outs[..|outs| - 1], t);
    }
  }

  /** A merge adds at most one title per outcome. */
  lemma {:induction false} MergeAllSize(specs: Specs, outs: seq<Outcome>)
    ensures |MergeAll(specs, outs)| <= |specs| + |outs|
    decreases |outs|
  {
    if outs != [] {
      MergeAllSize(specs, outs[..|outs| - 1]);
    }
  }

  /** Merging records that carry a link from a set and a price keeps that
      property of the whole result set. */
  lemma {:induction false} MergeAllLinked(specs: Specs, outs: seq<Outcome>, links: set<string>)
    requires Linked(specs, links)
    requires forall j :: 0 <= j < |outs| && Accepted(outs[j]) ==>
      LinkKey in outs[j].data.value && outs[j].data.value[LinkKey] in links && PriceKey in outs[j].data.value
    ensures Linked(MergeAll(specs, outs), links)
    decreases |outs|
  {
    if outs != [] {
      MergeAllLinked(specs, outs[..|outs| - 1], links);
    }
  }

  /** Every record a batch returns carries the link of its own task. */
  lemma {:induction false} BatchOutcomesLinked(links: seq<string>, runs: seq<TaskRun>, order: seq<nat>)
    requires |runs| == |links|
    requires forall j :: 0 <= j < |order| ==> order[j] < |links|
    ensures forall j :: 0 <= j < |order| && Accepted(BatchOutcomes(links, runs, order)[j]) ==>
      var d := BatchOutcomes(links, runs, order)[j].data.value;
      LinkKey in d && d[LinkKey] == links[order[j]] && PriceKey in d
    decreases |order|
  {
    if order != [] {
      BatchOutcomesLinked(links, runs, order[..|order| - 1]);
    }
  }

  /** A prefix of the queries succeeds whenever the whole list does, and its
      titles are all still present at the end: specs only grows. */
  lemma {:induction false} SearchPrefix(qs: seq<Query>, k: nat)
    requires AllWellFormed(qs) && k <= |qs|
    ensures Search(qs).Some? ==> Search(qs[..k]).Some? && Search(qs[..k]).value.Keys <= Search(qs).value.Keys
    decreases |qs|
  {
    if k < |qs| {
      var n := |qs| - 1;
      assert qs[..n][..k] == qs[..k];
      SearchPrefix(qs[..n], k);
      if Search(qs).Some? {
        var q := qs[n];
        MergeAllKeys(Search(qs[..n]).value, BatchOutcomes(Collected(q.pages), q.runs, q.order));
      }
    } else {
      assert qs[..k] == qs;
    }
  }

  /** A query whose first navigation raises ends the whole search with no
      result, whatever came before it. */
  lemma {:induction false} SearchAborts(qs: seq<Query>, i: nat)
    requires AllWellFormed(qs) && i < |qs| && FirstPageFails(qs[i].pages)
    ensures Search(qs).None?
    decreases |qs|
  {
    var n := |qs| - 1;
    if i < n {
      assert qs[..n][i] == qs[i];
      SearchAborts(qs[..n], i);
    }
  }

  /** The result set holds at most Target records per query. */
  lemma {:induction false} SearchSize(qs: seq<Query>)
    requires AllWellFormed(qs)
    ensures Search(qs).Some? ==> |Search(qs).value| <= Target * |qs|
    decreases |qs|
  {
    if qs != [] && Search(qs).Some? {
      var n := |qs| - 1;
      var q := qs[n];
      SearchSize(qs[..n]);
      CollectedShape(q.pages);
      MergeAllSize(Search(qs[..n]).value, BatchOutcomes(Collected(q.pages), q.runs, q.order));
    }
  }

  /** Every record in the result carries a price and a non-empty
      product_link that one of the queries collected. */
  lemma {:induction false} SearchLinked(qs: seq<Query>)
    requires AllWellFormed(qs)
    ensures Search(qs).Some? ==> Linked(Search(qs).value, AllLinks(qs))
    ensures "" !in AllLinks(qs)
    decreases |qs|
  {
    if qs != [] {
      var n := |qs| - 1;
      var q := qs[n];
      SearchLinked(qs[..n]);
      CollectedShape(q.pages);
      if Search(qs).Some? {
        var links := Collected(q.pages);
        BatchOutcomesLinked(links, q.runs, q.order);
        MergeAllLinked(Search(qs[..n]).value, BatchOutcomes(links, q.runs, q.order), AllLinks(qs));
      }
    }
  }
}
