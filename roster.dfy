/** `refreshGroupMembers`: walk the pages of the group's member listing, keep the
    ids of members whose rank is at least `MIN_RANK`, and stop at the first page
    that fails or that has no next-page cursor. The upstream responses are inputs:
    `pages[k]` is what the k-th request returned. */
module Roster {
  import opened Wrappers
  import opened Strings

  /** Lowest group rank that is watched ("High Command" and above). */
  const MIN_RANK := 143

  type UserId = string

  /** One entry of the listing's `data`: `row.role?.rank`, `row.user?.userId`, `row.user?.id`. */
  datatype Row = Row(rank: Option<int>, userId: Option<nat>, id: Option<nat>)

  /** The outcome of one page request: a network error, or an HTTP response with its
      status, its `data` rows (an absent `data` is no rows) and its `nextPageCursor`. */
  datatype PageResponse =
    | PageNetworkError
    | PageHttp(status: int, data: seq<Row>, nextPageCursor: Option<string>)

  /** `res.ok`: a status in 200..299. */
  predicate IsOk(status: int) { 200 <= status <= 299 }

  /** Whether a page's rows are read at all. */
  predicate PageOk(p: PageResponse) { p.PageHttp? && IsOk(p.status) }

  /** Whether the loop asks for another page after `p` (a missing, null or empty cursor stops it). */
  predicate Continues(p: PageResponse)
  {
    p.PageHttp? && p.nextPageCursor.Some? && |p.nextPageCursor.value| > 0
  }

  /** A missing rank counts as 0. */
  function RankOf(row: Row): int { row.rank.GetOr(0) }

  /** `String(row.user?.userId ?? row.user?.id ?? "")`. */
  function UidOf(row: Row): UserId
  {
    match row.userId
    case Some(u) => NatToString(u)
    case None => match row.id { case Some(i) => NatToString(i) case None => "" }
  }

  /** `uid && rank >= MIN_RANK`: a non-empty id and a high enough rank. */
  predicate Qualifies(row: Row) { |UidOf(row)| > 0 && RankOf(row) >= MIN_RANK }

  /** The ids of the qualifying rows, in row order, repeats included. */
  function QualifyingUids(rows: seq<Row>): seq<UserId>
  {
    if rows == [] then []
    else
      var last := rows[|rows| - 1];
      QualifyingUids(rows[..|rows| - 1]) + (if Qualifies(last) then [UidOf(last)] else [])
  }

  function RowsOf(p: PageResponse): seq<Row> { if p.PageHttp? then p.data else [] }

  /** The qualifying ids of a run of pages, page after page. */
  function PagesUids(pages: seq<PageResponse>): seq<UserId>
  {
    if pages == [] then []
    else PagesUids(pages[..|pages| - 1]) + QualifyingUids(RowsOf(pages[|pages| - 1]))
  }

  /** How many pages have their rows read: pages are read while they succeed, and the
      one without a next cursor is the last. Running out of responses also ends it. */
  function ReadCount(pages: seq<PageResponse>): (r: nat)
    ensures r <= |pages|
    ensures forall k :: 0 <= k < r ==> PageOk(pages[k])
    ensures forall k :: 0 <= k < r - 1 ==> Continues(pages[k])
    ensures r < |pages| ==> !PageOk(pages[r]) || (r > 0 && !Continues(pages[r - 1]))
  {
    if pages == [] || !PageOk(pages[0]) then 0
    else if !Continues(pages[0]) then 1
    else 1 + ReadCount(pages[1..])
  }

  /** No id twice. */
  predicate NoDup(s: seq<UserId>)
  {
    forall i, j :: 0 <= i < j < |s| ==> s[i] != s[j]
  }

  /** `s` with every repeat dropped, first occurrences kept in order: the iteration
      order of a JavaScript `Set` filled from `s`. */
  function Dedup(s: seq<UserId>): seq<UserId>
  {
    if s == [] then []
    else
      var d := Dedup(s[..|s| - 1]);
      if s[|s| - 1] in d then d else d + [s[|s| - 1]]
  }

  /** The roster a refresh produces from the given upstream responses. */
  function Roster(pages: seq<PageResponse>): seq<UserId>
  {
    Dedup(PagesUids(pages[..ReadCount(pages)]))
  }

  lemma {:induction false} DedupElements(s: seq<UserId>, x: UserId)
    ensures x in Dedup(s) <==> x in s
  {
    if s != [] {
      DedupElements(s[..|s| - 1], x);
      assert s == s[..|s| - 1] + [s[|s| - 1]];
    }
  }

  lemma {:induction false} DedupNoDup(s: seq<UserId>)
    ensures NoDup(Dedup(s))
  {
    if s != [] {
      DedupNoDup(s[..|s| - 1]);
    }
  }

  /** `row` is kept by the filter and its id is `u`. */
  predicate RowGives(row: Row, u: UserId) { Qualifies(row) && UidOf(row) == u }

  lemma {:induction false} QualifyingUidsMember(rows: seq<Row>, u: UserId)
    ensures u in QualifyingUids(rows) <==> exists j :: 0 <= j < |rows| && RowGives(rows[j], u)
  {
    if rows != [] {
      var init := rows[..|rows| - 1];
      QualifyingUidsMember(init, u);
      assert forall j :: 0 <= j < |init| ==> init[j] == rows[j];
    }
  }

  /** Whether `u` is the id of a qualifying row of one of `pages`. */
  predicate QualifiesIn(pages: seq<PageResponse>, u: UserId)
  {
    exists i, j :: 0 <= i < |pages| && 0 <= j < |RowsOf(pages[i])| && RowGives(RowsOf(pages[i])[j], u)
  }

  lemma {:induction false} PagesUidsSound(pages: seq<PageResponse>, u: UserId)
    requires u in PagesUids(pages)
    ensures QualifiesIn(pages, u)
  {
    var n := |pages|;
    var init := pages[..n - 1];
    var rows := RowsOf(pages[n - 1]);
    if u in PagesUids(init) {
      PagesUidsSound(init, u);
      var i, j :| 0 <= i < |init| && 0 <= j < |RowsOf(init[i])| && RowGives(RowsOf(init[i])[j], u);
      assert init[i] == pages[i];
    } else {
      QualifyingUidsMember(rows, u);
      var j :| 0 <= j < |rows| && RowGives(rows[j], u);
      assert RowGives(RowsOf(pages[n - 1])[j], u);
    }
  }

  lemma {:induction false} PagesUidsComplete(pages: seq<PageResponse>, i: nat, j: nat)
    requires i < |pages| && j < |RowsOf(pages[i])| && Qualifies(RowsOf(pages[i])[j])
    ensures UidOf(RowsOf(pages[i])[j]) in PagesUids(pages)
  {
    var n := |pages|;
    var init := pages[..n - 1];
    if i < n - 1 {
      assert init[i] == pages[i];
      PagesUidsComplete(init, i, j);
    } else {
      var rows := RowsOf(pages[n - 1]);
      QualifyingUidsMember(rows, UidOf(rows[j]));
      assert RowGives(rows[j], UidOf(rows[j]));
      assert PagesUids(pages) == PagesUids(init) + QualifyingUids(rows);
    }
  }

  lemma PagesUidsMember(pages: seq<PageResponse>, u: UserId)
    ensures u in PagesUids(pages) <==> QualifiesIn(pages, u)
  {
    if u in PagesUids(pages) {
      PagesUidsSound(pages, u);
    }
    if QualifiesIn(pages, u) {
      var i, j :| 0 <= i < |pages| && 0 <= j < |RowsOf(pages[i])| && RowGives(RowsOf(pages[i])[j], u);
      PagesUidsComplete(pages, i, j);
    }
  }

  /** After a refresh the roster holds no id twice, and holds exactly the non-empty ids
      of rows with rank (0 when missing) at least `MIN_RANK`, taken from the pages that
      were read. */
  lemma RosterExact(pages: seq<PageResponse>, u: UserId)
    ensures NoDup(Roster(pages))
    ensures u in Roster(pages) <==>
      exists i, j :: 0 <= i < ReadCount(pages) && 0 <= j < |pages[i].data|
        && UidOf(pages[i].data[j]) == u && |u| > 0 && RankOf(pages[i].data[j]) >= MIN_RANK
  {
    var read := pages[..ReadCount(pages)];
    DedupNoDup(PagesUids(read));
    DedupElements(PagesUids(read), u);
    PagesUidsMember(read, u);
    assert forall i :: 0 <= i < |read| ==> read[i] == pages[i] && RowsOf(read[i]) == pages[i].data;
    if u in Roster(pages) {
      var i, j :| 0 <= i < |read| && 0 <= j < |RowsOf(read[i])| && RowGives(RowsOf(read[i])[j], u);
      assert UidOf(pages[i].data[j]) == u;
    }
  }

  /** Pages after the last one read make no difference. */
  lemma {:induction false} ReadCountPrefix(pages: seq<PageResponse>, k: nat)
    requires ReadCount(pages) <= k <= |pages|
    ensures ReadCount(pages[..k]) == ReadCount(pages)
  {
    if k > 0 && PageOk(pages[0]) && Continues(pages[0]) {
      assert pages[..k][1..] == pages[1..][..k - 1];
      ReadCountPrefix(pages[1..], k - 1);
    }
  }

  /** A refresh whose first page fails leaves nobody watched: the roster is replaced by
      the empty list, not kept from the refresh before. */
  lemma RosterFirstPageFails(pages: seq<PageResponse>)
    requires |pages| > 0 && !PageOk(pages[0])
    ensures Roster(pages) == []
  {
    assert pages[..0] == [];
  }

  /** A failed page ends the refresh and the pages before it are still kept; so does a
      page without a next cursor, whose own rows are kept. */
  lemma RosterStops(pages: seq<PageResponse>, k: nat)
    requires k < |pages|
    ensures !PageOk(pages[k]) ==> Roster(pages) == Roster(pages[..k])
    ensures PageOk(pages[k]) && !Continues(pages[k]) ==> Roster(pages) == Roster(pages[..k + 1])
  {
    var m := if PageOk(pages[k]) then k + 1 else k;
    if !PageOk(pages[k]) || !Continues(pages[k]) {
      ReadCountPrefix(pages, m);
      assert pages[..m][..ReadCount(pages)] == pages[..ReadCount(pages)];
    }
  }

  lemma ReadCountStep(pages: seq<PageResponse>, i: nat)
    requires i < |pages|
    ensures ReadCount(pages[i..]) ==
      if !PageOk(pages[i]) then 0 else if !Continues(pages[i]) then 1 else 1 + ReadCount(pages[i + 1..])
  {
    assert pages[i..][0] == pages[i];
    assert pages[i..][1..] == pages[i + 1..];
  }

  lemma PagesUidsStep(pages: seq<PageResponse>, i: nat)
    requires i < |pages|
    ensures PagesUids(pages[..i + 1]) == PagesUids(pages[..i]) + QualifyingUids(RowsOf(pages[i]))
  {
    assert pages[..i + 1][..i] == pages[..i];
  }

  lemma DedupSnoc(s: seq<UserId>, x: UserId)
    ensures Dedup(s + [x]) == if x in Dedup(s) then Dedup(s) else Dedup(s) + [x]
  {
    assert (s + [x])[..|s|] == s;
  }

  lemma QualifyingUidsSnoc(rows: seq<Row>, j: nat)
    requires j < |rows|
    ensures QualifyingUids(rows[..j + 1]) == QualifyingUids(rows[..j]) + (if Qualifies(rows[j]) then [UidOf(rows[j])] else [])
  {
    assert rows[..j + 1][..j] == rows[..j];
  }

  /** The inner loop over one page's rows: each qualifying id is added to `found`
      unless it is already there (`found.add(uid)` on a `Set`). */
  method AddQualifying(found: seq<UserId>, ghost seen: seq<UserId>, rows: seq<Row>)
    returns (found': seq<UserId>)
    requires found == Dedup(seen)
    ensures found' == Dedup(seen + QualifyingUids(rows))
  {
    found' := found;
    assert rows[..0] == [] && seen + [] == seen;
    var j := 0;
    while j < |rows|
      invariant 0 <= j <= |rows|
      invariant found' == Dedup(seen + QualifyingUids(rows[..j]))
    {
      var row := rows[j];
      AddQualifyingStep(seen, rows, j, found');
      var rank := RankOf(row);
      var uid := UidOf(row);
      if |uid| > 0 && rank >= MIN_RANK && uid !in found' {
        found' := found' + [uid];
      }
      j := j + 1;
    }
    assert rows[..|rows|] == rows;
  }

  /** One row of the inner loop: a qualifying id not yet collected is appended. */
  lemma AddQualifyingStep(seen: seq<UserId>, rows: seq<Row>, j: nat, d: seq<UserId>)
    requires j < |rows| && d == Dedup(seen + QualifyingUids(rows[..j]))
    ensures Dedup(seen + QualifyingUids(rows[..j + 1])) ==
        if Qualifies(rows[j]) && UidOf(rows[j]) !in d then d + [UidOf(rows[j])] else d
  {
    var q := QualifyingUids(rows[..j]);
    QualifyingUidsSnoc(rows, j);
    if Qualifies(rows[j]) {
      var uid := UidOf(rows[j]);
      assert seen + (q + [uid]) == (seen + q) + [uid];
      DedupSnoc(seen + q, uid);
    } else {
      assert q + [] == q;
    }
  }

  /** The refresh loop: pages in order until one fails or has no next cursor. */
  method CollectRoster(pages: seq<PageResponse>) returns (found: seq<UserId>)
    ensures found == Roster(pages)
  {
    found := [];
    ghost var seen: seq<UserId> := [];
    var i := 0;
    var more := true;
    while more && i < |pages|
      invariant 0 <= i <= |pages|
      invariant more ==> ReadCount(pages) == i + ReadCount(pages[i..])
      invariant !more ==> ReadCount(pages) == i
      invariant seen == PagesUids(pages[..i])
      invariant found == Dedup(seen)
      decreases |pages| - i, more
    {
      var page := pages[i];
      if !page.PageHttp? || !IsOk(page.status) {
        ReadCountStep(pages, i);
        more := false;
      } else {
        found := AddQualifying(found, seen, page.data);
        seen := seen + QualifyingUids(page.data);
        PagesUidsStep(pages, i);
        ReadCountStep(pages, i);
        if !(page.nextPageCursor.Some? && |page.nextPageCursor.value| > 0) {
          more := false;
        }
        i := i + 1;
      }
    }
    if more {
      assert pages[i..] == [];
    }
  }
}
