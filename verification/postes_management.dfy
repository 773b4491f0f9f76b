/** The pole management page of the web client
    (web/src/pages/PostesManagement.tsx): the search over pole ids and IP
    numbers, the caps on what the list, the map and the PDF show, opening a
    pole's QR dialog from its marker, and the one-pole-a-page QR PDF. */
module PostesManagement {

  import opened Common
  import opened Text
  import opened Posts

  const BASE_URL: string := "https://sistema.prefeitura.com/postes"

  const DISPLAY_LIMIT: nat := 100
  const MARKER_LIMIT: nat := 500
  const EXPORT_LIMIT: nat := 200

  // ---------------------------------------------------------------------
  // Search.

  function Hit(lower: string -> string, searchTerm: string): string -> bool
  {
    (s: string) => IncludesFolded(lower, s, searchTerm)
  }

  /** The search filter: the pole id or one of the IP numbers contains the
      search, both lower-cased. */
  function Matches(searchTerm: string, lower: string -> string): RealPost -> bool
  {
    (p: RealPost) => IncludesFolded(lower, p.idPoste, searchTerm) || Any(p.ips, Hit(lower, searchTerm))
  }

  /** `filtered`: the poles whose id or some IP number contains the
      search, in inventory order. */
  function Filtered(posts: seq<RealPost>, searchTerm: string, lower: string -> string): (r: seq<RealPost>)
    ensures forall p :: p in r <==>
      && p in posts
      && (|| IncludesFolded(lower, p.idPoste, searchTerm)
          || exists k :: 0 <= k < |p.ips| && IncludesFolded(lower, p.ips[k], searchTerm))
    ensures IsSubsequence(r, posts)
  {
    Filter(posts, Matches(searchTerm, lower))
  }

  /** There is no guard for an empty search: it matches every pole because
      the lower-cased empty string occurs in any string. */
  lemma EmptySearchMatchesAll(posts: seq<RealPost>, lower: string -> string)
    requires lower("") == ""
    ensures Filtered(posts, "", lower) == posts
  {
    forall i | 0 <= i < |posts|
      ensures Matches("", lower)(posts[i])
    {
      ContainsEmpty(lower(posts[i].idPoste));
    }
    FilterAll(posts, Matches("", lower));
  }

  // ---------------------------------------------------------------------
  // What the page shows.

  /** A map marker of the page: it carries the pole id itself. */
  datatype Marker = Marker(id: string, lat: real, lng: real, caption: string)

  /** The list rows, the map markers and the poles the PDF covers. */
  datatype Views = Views(rows: seq<RealPost>, markers: seq<Marker>, exported: seq<RealPost>)

  function MarkerOf(p: RealPost): Marker
  {
    Marker(p.idPoste, p.latitude, p.longitude, p.idPoste)
  }

  /** The first 100 matching poles in the list, the first 500 on the map
      and the first 200 in the PDF. */
  function ViewsOf(posts: seq<RealPost>, searchTerm: string, lower: string -> string): (v: Views)
    ensures var f := Filtered(posts, searchTerm, lower);
      && v.rows <= f && |v.rows| == Min(|f|, DISPLAY_LIMIT)
      && v.exported <= f && |v.exported| == Min(|f|, EXPORT_LIMIT)
      && |v.markers| == Min(|f|, MARKER_LIMIT)
      && forall i :: 0 <= i < |v.markers| ==> v.markers[i] == MarkerOf(f[i])
  {
    var f := Filtered(posts, searchTerm, lower);
    var onMap := Take(f, MARKER_LIMIT);
    Views(Take(f, DISPLAY_LIMIT), seq(|onMap|, i requires 0 <= i < |onMap| => MarkerOf(onMap[i])), Take(f, EXPORT_LIMIT))
  }

  /** The list rows are the first rows of the PDF, and every pole of the
      PDF has its marker on the map, at the same position. */
  lemma ViewsNest(posts: seq<RealPost>, searchTerm: string, lower: string -> string)
    ensures var v := ViewsOf(posts, searchTerm, lower);
      && v.rows <= v.exported
      && |v.exported| <= |v.markers|
      && forall i :: 0 <= i < |v.exported| ==> v.markers[i] == MarkerOf(v.exported[i])
  {
    var f := Filtered(posts, searchTerm, lower);
    TakeTake(f, DISPLAY_LIMIT, EXPORT_LIMIT);
  }

  // ---------------------------------------------------------------------
  // The QR dialog.

  /** The pole shown in the QR dialog, and whether the dialog is open. */
  datatype Dialog = Dialog(selected: Option<RealPost>, open: bool)

  function HasId(id: string): RealPost -> bool
  {
    (p: RealPost) => p.idPoste == id
  }

  /** `handleMarkerClick`: the first pole of the inventory with the clicked
      id is selected and the dialog opens; an unknown id changes nothing. */
  function MarkerClick(posts: seq<RealPost>, d: Dialog, id: string): (r: Dialog)
    ensures (forall i :: 0 <= i < |posts| ==> posts[i].idPoste != id) ==> r == d
    ensures (exists i :: 0 <= i < |posts| && posts[i].idPoste == id) ==>
      && r.open
      && exists k: nat :: FirstAt(posts, HasId(id), k) && r.selected == Some(posts[k])
  {
    match Find(posts, HasId(id))
    case None => d
    case Some(p) => Dialog(Some(p), true)
  }

  /** When pole ids are unique, a pole's marker opens that pole. */
  lemma MarkerOpensItsPole(posts: seq<RealPost>, d: Dialog, k: nat)
    requires k < |posts|
    requires forall i, j :: 0 <= i < j < |posts| ==> posts[i].idPoste != posts[j].idPoste
    ensures MarkerClick(posts, d, MarkerOf(posts[k]).id) == Dialog(Some(posts[k]), true)
  {
    var id := posts[k].idPoste;
    assert HasId(id)(posts[k]);
    var r := MarkerClick(posts, d, id);
    var k': nat :| FirstAt(posts, HasId(id), k') && r.selected == Some(posts[k']);
    assert !(k' < k) && !(k < k');
  }

  /** The address a QR code of this page encodes. */
  function QrUrl(idPoste: string): string
  {
    BASE_URL + "/" + idPoste
  }

  /** The QR code of the dialog, when a pole is selected. */
  function DialogQr(d: Dialog): (r: Option<string>)
    ensures r.Some? <==> d.selected.Some?
    ensures r.Some? ==> r.value == QrUrl(d.selected.value.idPoste)
  {
    match d.selected
    case None => None
    case Some(p) => Some(QrUrl(p.idPoste))
  }

  // ---------------------------------------------------------------------
  // The QR PDF.

  /** One page of the PDF: the heading with the pole id, the URL printed
      under the QR code (which the code encodes) and the footer. */
  datatype QrPage = QrPage(heading: string, url: string, footer: string)

  /** "Página 3 de 20". */
  function Footer(i: nat, n: nat): string
  {
    "Página " + ToDecimal(i + 1) + " de " + ToDecimal(n)
  }

  /** The footer of a page names its number, counted from 1, and the page
      count, both in decimal. */
  lemma FooterNumbers(i: nat, n: nat)
    requires i < n
    ensures exists a, b :: && Footer(i, n) == "Página " + a + " de " + b
                           && AllDigits(a) && AllDigits(b)
                           && 1 <= DecimalValue(a) <= DecimalValue(b) == n
  {
    var a, b := ToDecimal(i + 1), ToDecimal(n);
    assert Footer(i, n) == "Página " + a + " de " + b;
  }

  /** `handleExportPDF`: one page per pole, in order, for the first 200
      matching poles. */
  function ExportPages(filtered: seq<RealPost>): (r: seq<QrPage>)
    ensures |r| == Min(|filtered|, EXPORT_LIMIT)
    ensures forall i :: 0 <= i < |r| ==> r[i].heading == "POSTE " + filtered[i].idPoste
    ensures forall i :: 0 <= i < |r| ==> r[i].url == QrUrl(filtered[i].idPoste)
    ensures forall i :: 0 <= i < |r| ==> r[i].footer == Footer(i, |r|)
  {
    var posts := Take(filtered, EXPORT_LIMIT);
    seq(|posts|, i requires 0 <= i < |posts| =>
      QrPage("POSTE " + posts[i].idPoste, QrUrl(posts[i].idPoste), Footer(i, |posts|)))
  }

  /** The page of a pole in the PDF carries the code its QR dialog shows. */
  lemma PdfMatchesDialog(posts: seq<RealPost>, searchTerm: string, lower: string -> string, d: Dialog, i: nat)
    requires forall a, b :: 0 <= a < b < |posts| ==> posts[a].idPoste != posts[b].idPoste
    requires i < |ViewsOf(posts, searchTerm, lower).exported|
    ensures var p := ViewsOf(posts, searchTerm, lower).exported[i];
      ExportPages(Filtered(posts, searchTerm, lower))[i].url == DialogQr(MarkerClick(posts, d, p.idPoste)).value
  {
    var f := Filtered(posts, searchTerm, lower);
    var p := f[i];
    assert p in posts;
    var k :| 0 <= k < |posts| && posts[k] == p;
    MarkerOpensItsPole(posts, d, k);
  }
}
