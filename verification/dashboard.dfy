/** The management dashboard of the web client (web/src/pages/Dashboard.tsx):
    selecting poles by clicking their map markers, the set of poles a QR
    export covers, the occurrence filter, and the layout of the batch QR
    PDF (twelve labels a page in a 3 x 4 grid, at most 200 poles). */
module Dashboard {

  import opened Common
  import opened Text
  import opened Posts
  import opened MockData
  import CepBairro

  const BASE_URL: string := "http://ilumina.tipalmital.sp.gov.br"

  /** The prefix of the map marker ids of poles (`post-${idPoste}`). */
  const MARKER_PREFIX: string := "post-"

  // ---------------------------------------------------------------------
  // Poles and their markers.

  /** A pole with the neighbourhood its CEP resolves to (`postsWithBairro`). */
  datatype MapPost = MapPost(post: RealPost, bairro: string)

  /** Every pole of the inventory, annotated with `getBairroByCep(p.cep)`. */
  function WithBairro(posts: seq<RealPost>): (r: seq<MapPost>)
    ensures |r| == |posts|
    ensures forall i :: 0 <= i < |r| ==> r[i].post == posts[i]
    ensures forall i :: 0 <= i < |r| ==> r[i].bairro == CepBairro.GetBairroByCep(posts[i].cep)
  {
    seq(|posts|, i requires 0 <= i < |posts| => MapPost(posts[i], CepBairro.GetBairroByCep(posts[i].cep)))
  }

  /** The id of the map marker of a pole. */
  function MarkerId(idPoste: string): string
  {
    MARKER_PREFIX + idPoste
  }

  /** The pole id a marker id names: what follows "post-". A marker id of
      another form, or "post-" alone (an empty id is falsy), names none.
      `markerId.replace("post-", "")` removes the first occurrence of the
      prefix, which is the one at the start. */
  function MarkerPostId(markerId: string): (r: Option<string>)
    ensures r.Some? <==> StartsWith(markerId, MARKER_PREFIX) && |markerId| > |MARKER_PREFIX|
    ensures r.Some? ==> r.value != "" && MarkerId(r.value) == markerId
  {
    if StartsWith(markerId, MARKER_PREFIX) then
      var id := markerId[|MARKER_PREFIX|..];
      assert MarkerId(id) == markerId;
      if id == "" then None else Some(id)
    else None
  }

  /** The marker of a pole names that pole. */
  lemma MarkerRoundTrip(idPoste: string)
    requires idPoste != ""
    ensures MarkerPostId(MarkerId(idPoste)) == Some(idPoste)
  {
    assert MarkerId(idPoste)[|MARKER_PREFIX|..] == idPoste;
  }

  // ---------------------------------------------------------------------
  // Selection.

  /** The selection state: whether selection mode is on, and the ids of
      the selected poles in the order they were clicked. */
  datatype Selection = Selection(mode: bool, selected: seq<string>)

  function NotId(id: string): string -> bool
  {
    (x: string) => x != id
  }

  /** `togglePostSelection`: with selection mode on, a click on a pole's
      marker removes that pole from the selection when it is there and
      appends it otherwise; any other click leaves the selection alone. */
  function Toggle(mode: bool, markerId: string, selected: seq<string>): (r: seq<string>)
    ensures !mode || MarkerPostId(markerId).None? ==> r == selected
    ensures mode && MarkerPostId(markerId).Some? ==>
      var id := MarkerPostId(markerId).value;
      && (id in r <==> id !in selected)
      && (forall x :: x != id ==> (x in r <==> x in selected))
      && (id in selected ==> IsSubsequence(r, selected))
      && (id !in selected ==> r == selected + [id])
  {
    if !mode then selected
    else
      match MarkerPostId(markerId)
      case None => selected
      case Some(id) =>
        if id in selected then Filter(selected, NotId(id)) else selected + [id]
  }

  /** Clicking a pole that is not selected, then clicking it again, gives
      back the selection as it was. */
  lemma ToggleTwice(markerId: string, selected: seq<string>)
    requires MarkerPostId(markerId).Some? && MarkerPostId(markerId).value !in selected
    ensures Toggle(true, markerId, Toggle(true, markerId, selected)) == selected
  {
    var id := MarkerPostId(markerId).value;
    FilterAppend(selected, [id], NotId(id));
    FilterAll(selected, NotId(id));
    assert Filter([id], NotId(id)) == [] by {
      assert [id][1..] == [];
    }
  }

  /** A selection without repeated ids keeps none under clicks. */
  lemma ToggleKeepsDistinct(mode: bool, markerId: string, selected: seq<string>)
    requires Distinct(selected)
    ensures Distinct(Toggle(mode, markerId, selected))
  {
    if mode && MarkerPostId(markerId).Some? {
      var id := MarkerPostId(markerId).value;
      if id in selected {
        FilterDistinct(selected, NotId(id));
      } else {
        AppendDistinct(selected, id);
      }
    }
  }

  /** A marker click on the page. */
  function Click(s: Selection, markerId: string): (r: Selection)
    ensures r.mode == s.mode
  {
    s.(selected := Toggle(s.mode, markerId, s.selected))
  }

  /** A series of marker clicks, in order. */
  function Clicks(s: Selection, markerIds: seq<string>): (r: Selection)
    ensures r.mode == s.mode
    decreases |markerIds|
  {
    if |markerIds| == 0 then s else Clicks(Click(s, markerIds[0]), markerIds[1..])
  }

  /** The selection-mode switch: turning it off also clears the selection. */
  function SwitchMode(s: Selection, checked: bool): (r: Selection)
    ensures r.mode == checked
    ensures !checked ==> r.selected == []
    ensures checked ==> r.selected == s.selected
  {
    if !checked then Selection(checked, []) else s.(mode := checked)
  }

  /** Once the switch is off, clicks select nothing: the selection stays
      empty until the switch is turned on again. */
  lemma OffSelectsNothing(s: Selection, markerIds: seq<string>)
    ensures Clicks(SwitchMode(s, false), markerIds).selected == []
  {
    ClicksWhileOff(SwitchMode(s, false), markerIds);
  }

  lemma {:induction false} ClicksWhileOff(s: Selection, markerIds: seq<string>)
    requires !s.mode
    ensures Clicks(s, markerIds) == s
    decreases |markerIds|
  {
    if |markerIds| > 0 {
      ClicksWhileOff(Click(s, markerIds[0]), markerIds[1..]);
    }
  }

  /** No series of clicks repeats an id in the selection. */
  lemma {:induction false} ClicksKeepDistinct(s: Selection, markerIds: seq<string>)
    requires Distinct(s.selected)
    ensures Distinct(Clicks(s, markerIds).selected)
    decreases |markerIds|
  {
    if |markerIds| > 0 {
      ToggleKeepsDistinct(s.mode, markerIds[0], s.selected);
      ClicksKeepDistinct(Click(s, markerIds[0]), markerIds[1..]);
    }
  }

  // ---------------------------------------------------------------------
  // What an export covers.

  function InSelection(selected: seq<string>): MapPost -> bool
  {
    (p: MapPost) => p.post.idPoste in selected
  }

  /** `exportPosts`: the selected poles in inventory order, or every pole
      when nothing is selected. */
  function ExportPosts(posts: seq<MapPost>, selected: seq<string>): (r: seq<MapPost>)
    ensures |selected| == 0 ==> r == posts
    ensures |selected| > 0 ==> forall p :: p in r <==> p in posts && p.post.idPoste in selected
    ensures IsSubsequence(r, posts)
  {
    if |selected| > 0 then Filter(posts, InSelection(selected))
    else
      SubsequenceSelf(posts);
      posts
  }

  /** Selecting every pole exports the same poles as selecting none. */
  lemma SelectingAllExportsAll(posts: seq<MapPost>, selected: seq<string>)
    requires forall i :: 0 <= i < |posts| ==> posts[i].post.idPoste in selected
    ensures ExportPosts(posts, selected) == ExportPosts(posts, [])
  {
    FilterAll(posts, InSelection(selected));
  }

  // ---------------------------------------------------------------------
  // Occurrences.

  /** The occurrence filter, one early `return false` per control. */
  function Shown(statusFilter: string, searchTerm: string, lower: string -> string): Occurrence -> bool
  {
    (o: Occurrence) =>
      if statusFilter != "ALL" && StatusKey(o.status) != statusFilter then false
      else if searchTerm != "" && !IncludesFolded(lower, o.protocol, searchTerm)
              && !IncludesFolded(lower, o.postExternalId, searchTerm) then false
      else true
  }

  /** The search field matches an occurrence when it is empty or occurs,
      case-folded, in the protocol or in the pole id. */
  predicate SearchAdmits(searchTerm: string, lower: string -> string, o: Occurrence)
  {
    searchTerm == "" || IncludesFolded(lower, o.protocol, searchTerm) || IncludesFolded(lower, o.postExternalId, searchTerm)
  }

  /** `filteredOccurrences`: the occurrences that pass the status filter
      and the search, in list order. */
  function FilteredOccurrences(occs: seq<Occurrence>, statusFilter: string, searchTerm: string,
                               lower: string -> string): (r: seq<Occurrence>)
    ensures forall o :: o in r <==>
      o in occs && SelectAdmits(statusFilter, StatusKey(o.status)) && SearchAdmits(searchTerm, lower, o)
    ensures IsSubsequence(r, occs)
  {
    Filter(occs, Shown(statusFilter, searchTerm, lower))
  }

  /** With "ALL" and an empty search every occurrence is shown. */
  lemma OccurrenceFiltersOff(occs: seq<Occurrence>, lower: string -> string)
    ensures FilteredOccurrences(occs, "ALL", "", lower) == occs
  {
    FilterAll(occs, Shown("ALL", "", lower));
  }

  /** Choosing a status shows only occurrences in that status. */
  lemma OccurrenceStatusExact(occs: seq<Occurrence>, s: OccurrenceStatus, searchTerm: string, lower: string -> string)
    ensures forall o :: o in FilteredOccurrences(occs, StatusKey(s), searchTerm, lower) ==> o.status == s
  {
    forall o | o in FilteredOccurrences(occs, StatusKey(s), searchTerm, lower)
      ensures o.status == s
    {
      StatusKeyRoundTrip(s);
      StatusKeyRoundTrip(o.status);
    }
  }

  // ---------------------------------------------------------------------
  // The batch QR PDF.

  const EXPORT_LIMIT: nat := 200
  const COLS: nat := 3
  const ROWS: nat := 4
  const PER_PAGE: nat := COLS * ROWS

  /** One label of the sheet: the pole, its grid column and row, the
      heading, the URL its QR code encodes, the address caption and the
      optional CEP line. */
  datatype QrLabel = QrLabel(
    post: MapPost,
    col: nat,
    row: nat,
    heading: string,
    url: string,
    caption: string,
    cepLine: Option<string>)

  datatype PdfPage = PdfPage(title: string, labels: seq<QrLabel>)

  /** The outcome of the export button: an error toast when there is
      nothing to export, or the document with its file name. */
  datatype PdfExport = NothingToExport | Pdf(pages: seq<PdfPage>, fileName: string)

  /** The address a QR code of the dashboard encodes. */
  function QrUrl(idPoste: string): string
  {
    BASE_URL + "/poste/" + idPoste
  }

  /** Different poles get different QR codes. */
  lemma QrUrlInjective(a: string, b: string)
    requires QrUrl(a) == QrUrl(b)
    ensures a == b
  {
    var k := |BASE_URL + "/poste/"|;
    assert a == QrUrl(a)[k..];
    assert b == QrUrl(b)[k..];
  }

  /** A JavaScript string is truthy when it is present and not empty. */
  predicate Truthy(s: Option<string>)
  {
    s.Some? && s.value != ""
  }

  /** `post.logradouro || post.bairro`. */
  function Caption(p: MapPost): (r: string)
    ensures Truthy(p.post.logradouro) ==> r == p.post.logradouro.value
    ensures !Truthy(p.post.logradouro) ==> r == p.bairro
  {
    if Truthy(p.post.logradouro) then p.post.logradouro.value else p.bairro
  }

  /** The CEP line, printed only when the pole has a CEP. */
  function CepLine(p: MapPost): (r: Option<string>)
    ensures r.Some? <==> Truthy(p.post.cep)
    ensures r.Some? ==> r.value == "CEP: " + p.post.cep.value
  {
    if Truthy(p.post.cep) then Some("CEP: " + p.post.cep.value) else None
  }

  /** `${selectedPosts.length} selecionados`, or "Todos" without a selection. */
  function SelectionLabel(selected: seq<string>): string
  {
    if |selected| > 0 then ToDecimal(|selected|) + " selecionados" else "Todos"
  }

  /** What a label prints about its pole: the heading `Poste <id>`, a QR
      code of the pole's address, the street (the bairro when the street is
      empty or missing) and a CEP line exactly when the pole has a CEP. */
  ghost predicate Shows(l: QrLabel)
  {
    var post := l.post.post;
    && l.heading == "Poste " + post.idPoste
    && l.url == QrUrl(post.idPoste)
    && (Truthy(post.logradouro) ==> l.caption == post.logradouro.value)
    && (!Truthy(post.logradouro) ==> l.caption == l.post.bairro)
    && (l.cepLine.Some? <==> Truthy(post.cep))
    && (l.cepLine.Some? ==> l.cepLine.value == "CEP: " + post.cep.value)
  }

  /** Two labels whose QR codes encode the same address are labels of
      poles with the same id. */
  lemma SameUrlSamePole(l1: QrLabel, l2: QrLabel)
    requires Shows(l1) && Shows(l2)
    ensures l1.url == l2.url <==> l1.post.post.idPoste == l2.post.post.idPoste
  {
    if l1.url == l2.url {
      QrUrlInjective(l1.post.post.idPoste, l2.post.post.idPoste);
    }
  }

  /** The label at position `i` of a page: column `i % 3`, row `i / 3`. */
  function Label(p: MapPost, i: nat): (l: QrLabel)
    ensures l.post == p && l.row * COLS + l.col == i && l.col < COLS
    ensures Shows(l)
  {
    QrLabel(p, i % COLS, i / COLS, "Poste " + p.post.idPoste, QrUrl(p.post.idPoste), Caption(p), CepLine(p))
  }

  /** Page `pageIdx` (from 0), holding the poles of `slice` in order. */
  function Page(slice: seq<MapPost>, pageIdx: nat, tag: string): (pg: PdfPage)
    ensures |pg.labels| == |slice|
    ensures forall i :: 0 <= i < |slice| ==> pg.labels[i] == Label(slice[i], i)
  {
    PdfPage("QR Codes — " + tag + " — Pág. " + ToDecimal(pageIdx + 1),
            seq(|slice|, i requires 0 <= i < |slice| => Label(slice[i], i)))
  }

  /** Every label of the page sits in its own cell of the 3 x 4 grid. */
  ghost predicate InGrid(pg: PdfPage)
  {
    && |pg.labels| <= PER_PAGE
    && (forall i :: 0 <= i < |pg.labels| ==> pg.labels[i].col < COLS && pg.labels[i].row < ROWS)
    && (forall i, j :: 0 <= i < j < |pg.labels| ==>
          (pg.labels[i].col, pg.labels[i].row) != (pg.labels[j].col, pg.labels[j].row))
  }

  /** Page `p` holds the exported poles `p * 12` up to `p * 12 + 11`, in
      order, each label showing its own pole. */
  ghost predicate Holds(pg: PdfPage, exported: seq<MapPost>, p: nat)
  {
    && 0 < |pg.labels|
    && forall i :: 0 <= i < |pg.labels| ==>
         && p * PER_PAGE + i < |exported| && pg.labels[i].post == exported[p * PER_PAGE + i]
         && Shows(pg.labels[i])
  }

  /** `postsToExport.slice(pageIdx * perPage, (pageIdx + 1) * perPage)`:
      the poles of page `p`, which is not past the last page. */
  function PageSlice(exported: seq<MapPost>, p: nat): (r: seq<MapPost>)
    requires p < CeilDiv(|exported|, PER_PAGE)
    ensures 0 < |r| <= PER_PAGE
    ensures forall i :: 0 <= i < |r| ==> p * PER_PAGE + i < |exported| && r[i] == exported[p * PER_PAGE + i]
  {
    exported[p * PER_PAGE..Min((p + 1) * PER_PAGE, |exported|)]
  }

  /** `handleExportPDF`: nothing when no pole is to be exported; otherwise
      the first 200 poles, twelve to a page. */
  function ExportPdf(exportPosts: seq<MapPost>, selected: seq<string>): (r: PdfExport)
    ensures r.NothingToExport? <==> |exportPosts| == 0
    ensures r.Pdf? ==> |r.pages| == CeilDiv(Min(|exportPosts|, EXPORT_LIMIT), PER_PAGE)
    ensures r.Pdf? ==> forall p :: 0 <= p < |r.pages| ==>
      InGrid(r.pages[p]) && Holds(r.pages[p], Take(exportPosts, EXPORT_LIMIT), p)
    ensures r.Pdf? ==> r.fileName == "qrcodes-" + (if |selected| > 0 then "selecionados-" + ToDecimal(|selected|) else "todos") + ".pdf"
  {
    if |exportPosts| == 0 then NothingToExport
    else
      var tag := SelectionLabel(selected);
      var exported := Take(exportPosts, EXPORT_LIMIT);
      var count := CeilDiv(|exported|, PER_PAGE);
      var pages := seq(count, p requires 0 <= p < count => Page(PageSlice(exported, p), p, tag));
      assert forall p :: 0 <= p < |pages| ==> InGrid(pages[p]) && Holds(pages[p], exported, p) by {
        forall p | 0 <= p < |pages|
          ensures InGrid(pages[p]) && Holds(pages[p], exported, p)
        {
          PageLaidOut(exported, p, tag);
        }
      }
      var safeName := if |selected| > 0 then "selecionados-" + ToDecimal(|selected|) else "todos";
      Pdf(pages, "qrcodes-" + safeName + ".pdf")
  }

  lemma PageLaidOut(exported: seq<MapPost>, p: nat, tag: string)
    requires p < CeilDiv(|exported|, PER_PAGE)
    ensures InGrid(Page(PageSlice(exported, p), p, tag))
    ensures Holds(Page(PageSlice(exported, p), p, tag), exported, p)
  {
    var slice := PageSlice(exported, p);
    var pg := Page(slice, p, tag);
    forall i, j | 0 <= i < j < |pg.labels|
      ensures (pg.labels[i].col, pg.labels[i].row) != (pg.labels[j].col, pg.labels[j].row)
    {
      assert pg.labels[i] == Label(slice[i], i);
      assert pg.labels[j] == Label(slice[j], j);
    }
  }

  /** Every exported pole is on the sheet: pole `k` of the first 200 is at
      position `k % 12` of page `k / 12`. Together with `Holds`, each of
      them appears exactly once, in order. */
  lemma EveryPoleExported(exportPosts: seq<MapPost>, selected: seq<string>, k: nat)
    requires k < Min(|exportPosts|, EXPORT_LIMIT)
    ensures ExportPdf(exportPosts, selected).Pdf?
    ensures var pages := ExportPdf(exportPosts, selected).pages;
      && k / PER_PAGE < |pages|
      && k % PER_PAGE < |pages[k / PER_PAGE].labels|
      && pages[k / PER_PAGE].labels[k % PER_PAGE].post == exportPosts[k]
  {
    var exported := Take(exportPosts, EXPORT_LIMIT);
    var tag := SelectionLabel(selected);
    LabelAt(exported, tag, k);
    assert ExportPdf(exportPosts, selected).pages[k / PER_PAGE]
        == Page(PageSlice(exported, k / PER_PAGE), k / PER_PAGE, tag);
  }

  lemma LabelAt(exported: seq<MapPost>, tag: string, k: nat)
    requires k < |exported|
    ensures k / PER_PAGE < CeilDiv(|exported|, PER_PAGE)
    ensures var slice := PageSlice(exported, k / PER_PAGE);
      && k % PER_PAGE < |slice|
      && Page(slice, k / PER_PAGE, tag).labels[k % PER_PAGE].post == exported[k]
  {
  }

  /** The sheet never holds more than 200 poles: at most 17 pages. */
  lemma PageCountBound(exportPosts: seq<MapPost>, selected: seq<string>)
    requires |exportPosts| > 0
    ensures 1 <= |ExportPdf(exportPosts, selected).pages| <= 17
  {
  }
}
