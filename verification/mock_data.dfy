/** The demonstration data of the web client (web/src/lib/mock-data.ts): the
    occurrence statuses with their labels and colours, the categories, ten
    poles around the centre of Palmital, six occurrences, and
    `findNearestPost`, the nearest-pole scan over those ten poles. */
module MockData {

  import opened Common
  import opened Geo

  // ---------------------------------------------------------------------
  // Statuses.

  datatype OccurrenceStatus =
    | PendenteAprovacao
    | Aprovada
    | Rejeitada
    | Cancelada
    | Atribuida
    | EmExecucao
    | AguardandoAprovacao
    | Finalizada

  /** The string the TypeScript union uses for a status. */
  function StatusKey(s: OccurrenceStatus): string
  {
    match s
    case PendenteAprovacao => "PENDENTE_APROVACAO"
    case Aprovada => "APROVADA"
    case Rejeitada => "REJEITADA"
    case Cancelada => "CANCELADA"
    case Atribuida => "ATRIBUIDA"
    case EmExecucao => "EM_EXECUCAO"
    case AguardandoAprovacao => "AGUARDANDO_APROVACAO"
    case Finalizada => "FINALIZADA"
  }

  /** The status a key names, if any. */
  function ParseStatus(key: string): (r: Option<OccurrenceStatus>)
    ensures r.Some? ==> StatusKey(r.value) == key
    ensures r.None? ==> forall s :: StatusKey(s) != key
  {
    match key
    case "PENDENTE_APROVACAO" => Some(PendenteAprovacao)
    case "APROVADA" => Some(Aprovada)
    case "REJEITADA" => Some(Rejeitada)
    case "CANCELADA" => Some(Cancelada)
    case "ATRIBUIDA" => Some(Atribuida)
    case "EM_EXECUCAO" => Some(EmExecucao)
    case "AGUARDANDO_APROVACAO" => Some(AguardandoAprovacao)
    case "FINALIZADA" => Some(Finalizada)
    case _ => None
  }

  /** Every status has its own key, and parsing the key gives the status back. */
  lemma StatusKeyRoundTrip(s: OccurrenceStatus)
    ensures ParseStatus(StatusKey(s)) == Some(s)
  {
  }

  const STATUS_LABELS: map<string, string> := map[
    "PENDENTE_APROVACAO" := "Pendente",
    "APROVADA" := "Aprovada",
    "REJEITADA" := "Rejeitada",
    "CANCELADA" := "Cancelada",
    "ATRIBUIDA" := "Atribuída",
    "EM_EXECUCAO" := "Em Execução",
    "AGUARDANDO_APROVACAO" := "Aguardando Aprovação",
    "FINALIZADA" := "Finalizada"]

  const STATUS_COLORS: map<string, string> := map[
    "PENDENTE_APROVACAO" := "status-pending",
    "APROVADA" := "status-approved",
    "REJEITADA" := "status-rejected",
    "CANCELADA" := "status-rejected",
    "ATRIBUIDA" := "status-assigned",
    "EM_EXECUCAO" := "status-in-progress",
    "AGUARDANDO_APROVACAO" := "status-pending",
    "FINALIZADA" := "status-completed"]

  const STATUS_MAP_COLORS: map<string, string> := map[
    "PENDENTE_APROVACAO" := "#f59e0b",
    "APROVADA" := "#22c55e",
    "REJEITADA" := "#ef4444",
    "CANCELADA" := "#6b7280",
    "ATRIBUIDA" := "#3b82f6",
    "EM_EXECUCAO" := "#0a3d91",
    "AGUARDANDO_APROVACAO" := "#f59e0b",
    "FINALIZADA" := "#16a34a"]

  /** The three records are total over the statuses and hold nothing else. */
  lemma StatusMapsTotal()
    ensures forall s :: StatusKey(s) in STATUS_LABELS && StatusKey(s) in STATUS_COLORS
                        && StatusKey(s) in STATUS_MAP_COLORS
    ensures forall k :: k in STATUS_LABELS ==> ParseStatus(k).Some?
    ensures STATUS_LABELS.Keys == STATUS_COLORS.Keys == STATUS_MAP_COLORS.Keys
  {
    forall s
      ensures StatusKey(s) in STATUS_LABELS && StatusKey(s) in STATUS_COLORS
              && StatusKey(s) in STATUS_MAP_COLORS
    {
      match s
      case PendenteAprovacao =>
      case Aprovada =>
      case Rejeitada =>
      case Cancelada =>
      case Atribuida =>
      case EmExecucao =>
      case AguardandoAprovacao =>
      case Finalizada =>
    }
  }

  /** The label of a status, as the badges show it. */
  function Label(s: OccurrenceStatus): (r: string)
    ensures |r| > 0
  {
    StatusMapsTotal();
    STATUS_LABELS[StatusKey(s)]
  }

  /** Different statuses have different labels, so a label identifies its status. */
  lemma LabelsInjective(s: OccurrenceStatus, t: OccurrenceStatus)
    requires Label(s) == Label(t)
    ensures s == t
  {
  }

  // ---------------------------------------------------------------------
  // Categories, poles and occurrences.

  datatype Category = Category(id: string, name: string)

  const CATEGORIES: seq<Category> := [
    Category("1", "Lâmpada Queimada"),
    Category("2", "Poste Danificado"),
    Category("3", "Fiação Exposta"),
    Category("4", "Poste Inclinado"),
    Category("5", "Luminária Quebrada"),
    Category("6", "Outros")]

  datatype Post = Post(id: string, externalId: string, latitude: real, longitude: real, address: Option<string>)
  {
    function Location(): Point
    {
      Point(latitude, longitude)
    }
  }

  const MOCK_POSTS: seq<Post> := [
    Post("1", "P-001", -22.785, -50.206, Some("Rua XV de Novembro, 100")),
    Post("2", "P-002", -22.787, -50.204, Some("Av. Brasil, 200")),
    Post("3", "P-003", -22.784, -50.203, Some("Rua São Paulo, 50")),
    Post("4", "P-004", -22.789, -50.207, Some("Rua Paraná, 300")),
    Post("5", "P-005", -22.783, -50.208, Some("Rua Minas Gerais, 150")),
    Post("6", "P-006", -22.790, -50.202, Some("Av. Paulista, 400")),
    Post("7", "P-007", -22.786, -50.200, Some("Rua Rio de Janeiro, 80")),
    Post("8", "P-008", -22.782, -50.205, Some("Rua Bahia, 220")),
    Post("9", "P-009", -22.791, -50.209, Some("Rua Goiás, 60")),
    Post("10", "P-010", -22.788, -50.201, Some("Rua Santa Catarina, 110"))]

  datatype Priority = Baixa | Media | Alta | Urgente

  datatype Occurrence = Occurrence(
    id: string,
    protocol: string,
    postId: string,
    postExternalId: string,
    categoryId: string,
    categoryName: string,
    description: string,
    phone: string,
    latitude: real,
    longitude: real,
    status: OccurrenceStatus,
    priority: Priority,
    operatorId: Option<string>,
    operatorName: Option<string>,
    createdAt: string,
    updatedAt: string)

  const MOCK_OCCURRENCES: seq<Occurrence> := [
    Occurrence("1", "ZU-2026-0001", "1", "P-001", "1", "Lâmpada Queimada", "Lâmpada apagada há 3 dias",
      "(18) 99999-0001", -22.785, -50.206, PendenteAprovacao, Media, None, None,
      "2026-02-10T14:30:00", "2026-02-10T14:30:00"),
    Occurrence("2", "ZU-2026-0002", "3", "P-003", "3", "Fiação Exposta", "Fios expostos próximo à escola",
      "(18) 99999-0002", -22.784, -50.203, Aprovada, Urgente, None, None,
      "2026-02-09T10:00:00", "2026-02-09T11:00:00"),
    Occurrence("3", "ZU-2026-0003", "5", "P-005", "2", "Poste Danificado", "Poste com base rachada",
      "(18) 99999-0003", -22.783, -50.208, Atribuida, Alta, Some("op1"), Some("João Silva"),
      "2026-02-08T09:15:00", "2026-02-09T08:00:00"),
    Occurrence("4", "ZU-2026-0004", "7", "P-007", "1", "Lâmpada Queimada", "Ponto escuro na rua",
      "(18) 99999-0004", -22.786, -50.200, EmExecucao, Media, Some("op1"), Some("João Silva"),
      "2026-02-07T16:45:00", "2026-02-10T07:30:00"),
    Occurrence("5", "ZU-2026-0005", "9", "P-009", "4", "Poste Inclinado", "Poste inclinado após vendaval",
      "(18) 99999-0005", -22.791, -50.209, Finalizada, Alta, Some("op2"), Some("Maria Santos"),
      "2026-02-05T08:00:00", "2026-02-09T17:00:00"),
    Occurrence("6", "ZU-2026-0006", "2", "P-002", "5", "Luminária Quebrada", "Luminária vandalizada",
      "(18) 99999-0006", -22.787, -50.204, AguardandoAprovacao, Media, Some("op2"), Some("Maria Santos"),
      "2026-02-06T11:20:00", "2026-02-10T15:00:00")]

  /** Every occurrence points at a pole of the list, sits at that pole's
      coordinates, and carries its category's name. */
  predicate ConsistentOccurrence(o: Occurrence)
  {
    && (exists i | 0 <= i < |MOCK_POSTS| ::
          && MOCK_POSTS[i].id == o.postId && MOCK_POSTS[i].externalId == o.postExternalId
          && MOCK_POSTS[i].Location() == Point(o.latitude, o.longitude))
    && (exists c | 0 <= c < |CATEGORIES| ::
          CATEGORIES[c].id == o.categoryId && CATEGORIES[c].name == o.categoryName)
  }

  lemma MockOccurrenceConsistent(j: nat)
    requires j < |MOCK_OCCURRENCES|
    ensures ConsistentOccurrence(MOCK_OCCURRENCES[j])
  {
    var o := MOCK_OCCURRENCES[j];
    var postIndex := [0, 2, 4, 6, 8, 1][j];
    var categoryIndex := [0, 2, 1, 0, 3, 4][j];
    assert MOCK_POSTS[postIndex].id == o.postId;
    assert CATEGORIES[categoryIndex].id == o.categoryId;
  }

  /** The demonstration protocols are pairwise different: they differ in
      their last character. */
  lemma MockProtocolsDistinct(j: nat, k: nat)
    requires j < k < |MOCK_OCCURRENCES|
    ensures MOCK_OCCURRENCES[j].protocol != MOCK_OCCURRENCES[k].protocol
  {
    assert MOCK_OCCURRENCES[j].protocol[11] == "123456"[j];
    assert MOCK_OCCURRENCES[k].protocol[11] == "123456"[k];
  }

  // ---------------------------------------------------------------------
  // The nearest demonstration pole.

  /** `haversineDistance(lat, lng, post.latitude, post.longitude)` for each
      demonstration pole, in list order. */
  function MockDistances(origin: Point, dist: DistanceFn): (ds: seq<Measure>)
    ensures |ds| == |MOCK_POSTS|
    ensures forall i :: 0 <= i < |ds| ==> ds[i] == dist(origin, MOCK_POSTS[i].Location())
  {
    seq(|MOCK_POSTS|, i requires 0 <= i < |MOCK_POSTS| => dist(origin, MOCK_POSTS[i].Location()))
  }

  /** `findNearestPost`: the first pole of minimal distance. With haversine
      distances it always finds one, since the list is not empty. */
  function FindNearestPost(origin: Point, dist: DistanceFn): (r: Option<Post>)
    ensures var ds := MockDistances(origin, dist);
      && (r.None? <==> AllNaN(ds))
      && (r.Some? ==> exists k :: IsFirstNearest(ds, k) && MOCK_POSTS[k] == r.value)
    ensures HaversineLike(dist) ==> r.Some?
  {
    var ds := MockDistances(origin, dist);
    assert HaversineLike(dist) ==> ds[0].Finite?;
    match NearestIndex(ds)
    case None => None
    case Some(k) => Some(MOCK_POSTS[k])
  }

  /** No two demonstration poles lie at distance zero from each other: the
      haversine formula has this on the ten demonstration coordinates. */
  ghost predicate Separating(dist: DistanceFn)
  {
    forall i, j :: 0 <= i < |MOCK_POSTS| && 0 <= j < |MOCK_POSTS| ==>
      dist(MOCK_POSTS[i].Location(), MOCK_POSTS[j].Location()) == Finite(0.0) ==> i == j
  }

  /** Standing on a demonstration pole finds a pole at distance zero no later
      in the list; when the poles are apart, that very pole. */
  lemma NearestFromMockPost(k: nat, dist: DistanceFn)
    requires k < |MOCK_POSTS|
    requires HaversineLike(dist)
    ensures var r := FindNearestPost(MOCK_POSTS[k].Location(), dist);
      exists j :: 0 <= j <= k && r == Some(MOCK_POSTS[j])
                  && dist(MOCK_POSTS[k].Location(), MOCK_POSTS[j].Location()) == Finite(0.0)
    ensures Separating(dist) ==> FindNearestPost(MOCK_POSTS[k].Location(), dist) == Some(MOCK_POSTS[k])
  {
    var origin := MOCK_POSTS[k].Location();
    var locs := seq(|MOCK_POSTS|, i requires 0 <= i < |MOCK_POSTS| => MOCK_POSTS[i].Location());
    NearestOfOrigin(dist, origin, locs, k);
    var ds := MockDistances(origin, dist);
    assert ds == seq(|locs|, i requires 0 <= i < |locs| => dist(origin, locs[i]));
    var j := NearestIndex(ds).value;
    assert dist(origin, locs[j]) == Finite(0.0);
    assert FindNearestPost(origin, dist) == Some(MOCK_POSTS[j]);
    if Separating(dist) {
      assert j == k;
    }
  }
}
