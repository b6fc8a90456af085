/** The catalogue of the project's official PDF documents
    (server/routes/pdfs.js): a constant table of five entries, the list
    route, the lookup by id and the filter by category. */
module PdfRoutes {
  import opened Common

  /** The five documents; the title, file name and description of each are
      functions of the document below. */
  datatype Document = Resolucion | Hidrogeologico | Factibilidad | Especificaciones | Dictamen

  /** The metadata of one entry; `size` and `pages` are display strings. */
  datatype PdfMeta = PdfMeta(
    id: int,
    document: Document,
    category: string,
    date: string,
    size: string,
    pages: string)

  const NotFound: string := "PDF no encontrado"

  function Title(d: Document): string
  {
    match d
    case Resolucion => "Resolución Ambiental MARN (B2)"
    case Hidrogeologico => "Estudio/Sondeo Hidrogeológico"
    case Factibilidad => "Estudio de Factibilidad"
    case Especificaciones => "Especificaciones Técnicas y Planos"
    case Dictamen => "Dictamen Jurídico y Nombramiento de Supervisor"
  }

  function Filename(d: Document): string
  {
    match d
    case Resolucion => "resolucion-ambiental-marn.pdf"
    case Hidrogeologico => "estudio-hidrogeologico.pdf"
    case Factibilidad => "estudio-factibilidad.pdf"
    case Especificaciones => "especificaciones-tecnicas.pdf"
    case Dictamen => "dictamen-juridico-supervisor.pdf"
  }

  function Description(d: Document): string
  {
    match d
    case Resolucion =>
      "Resolución EAI-S-01579-2024 con categoría B2 y condiciones de construcción y operación. Incluye obligaciones de manejo de lodos, residuos, bitácoras y análisis semestrales."
    case Hidrogeologico =>
      "Estudio técnico que recomienda profundidad de 1,500 pies, método de perforación y monitoreo continuo. Detalla acuíferos en rocas volcánicas fracturadas y riesgos de sobreexplotación."
    case Factibilidad =>
      "Dimensiona la escala del sistema para ~11,650 beneficiarios. Localiza el proyecto en 18-75 Bulevar San Nicolás, zona 4 de Mixco."
    case Especificaciones =>
      "Describe caseta, cloración, conexión a red, pruebas de bombeo (48 h), registro eléctrico y validación de estudios. Incluye planos arquitectónicos y de ingeniería."
    case Dictamen =>
      "Dictamen jurídico 12-2025 A.J. favorable para continuar licitación y resolución del Concejo Municipal (6 de junio) con nombramiento de supervisor del proyecto."
  }

  /** The `pdfs` array, in its order. */
  function Catalogue(): (c: seq<PdfMeta>)
    ensures |c| == 5
    ensures forall i :: 0 <= i < |c| ==> c[i].id == i + 1
  {
    [ PdfMeta(1, Resolucion, "ambiental", "2025-02-03", "TBD", "TBD"),
      PdfMeta(2, Hidrogeologico, "tecnico", "TBD", "TBD", "TBD"),
      PdfMeta(3, Factibilidad, "tecnico", "TBD", "TBD", "TBD"),
      PdfMeta(4, Especificaciones, "tecnico", "TBD", "TBD", "TBD"),
      PdfMeta(5, Dictamen, "legal", "2025-06-06", "TBD", "TBD") ]
  }

  /** The ids are pairwise distinct. */
  lemma IdsDistinct()
    ensures forall i, j :: 0 <= i < j < |Catalogue()| ==> Catalogue()[i].id != Catalogue()[j].id
  {
  }

  /** `GET /api/pdfs`: every entry, and their number. */
  function ListPdfs(): (r: (seq<PdfMeta>, nat))
    ensures r.0 == Catalogue() && r.1 == |r.0| == 5
  {
    (Catalogue(), |Catalogue()|)
  }

  /** `pdfs.find(p => p.id === id)`: the first entry with that id. */
  function Find(s: seq<PdfMeta>, id: int): (r: Option<PdfMeta>)
    ensures r.Some? ==> r.value in s && r.value.id == id
    ensures r.None? <==> forall i :: 0 <= i < |s| ==> s[i].id != id
  {
    if s == [] then None
    else if s[0].id == id then Some(s[0])
    else Find(s[1..], id)
  }

  /** `GET /api/pdfs/:id`: `parsed` is `parseInt(req.params.id)`, `None` for
      `NaN`, which equals no id. */
  function GetPdf(parsed: Option<int>): (r: Response<PdfMeta>)
    ensures r.Failure? ==> r == Failure(404, NotFound)
    ensures r.Success? ==> parsed.Some? && r.data in Catalogue() && r.data.id == parsed.value
  {
    if parsed.None? then Failure(404, NotFound)
    else
      match Find(Catalogue(), parsed.value)
      case None => Failure(404, NotFound)
      case Some(p) => Success(p)
  }

  /** The lookup succeeds exactly for the ids 1 to 5, and returns the entry at
      that position: the only entry with that id. */
  lemma {:induction false} GetPdfExactly(parsed: Option<int>)
    ensures GetPdf(parsed).Success? <==> parsed.Some? && 1 <= parsed.value <= 5
    ensures GetPdf(parsed).Success? ==> GetPdf(parsed).data == Catalogue()[parsed.value - 1]
  {
    var c := Catalogue();
    if parsed.Some? && 1 <= parsed.value <= 5 {
      var k := parsed.value - 1;
      assert c[k].id == parsed.value;
      var found := GetPdf(parsed).data;
      var m :| 0 <= m < |c| && c[m] == found;
      IdsDistinct();
      assert m == k;
    }
  }

  function HasCategory(category: string): PdfMeta -> bool
  {
    (p: PdfMeta) => p.category == category
  }

  /** `GET /api/pdfs/category/:category`: the entries of that category in
      catalogue order, and their number. */
  function ByCategory(category: string): (r: (seq<PdfMeta>, nat))
    ensures r.1 == |r.0|
    ensures forall i :: 0 <= i < |r.0| ==> r.0[i] in Catalogue() && r.0[i].category == category
    ensures forall i :: 0 <= i < |Catalogue()| && Catalogue()[i].category == category ==> Catalogue()[i] in r.0
  {
    var f := Filter(Catalogue(), HasCategory(category));
    (f, |f|)
  }

  /** The three categories in use, and what each of them lists. */
  lemma AmbientalListed()
    ensures ByCategory("ambiental").0 == [Catalogue()[0]]
  {
  }

  lemma TecnicoListed()
    ensures ByCategory("tecnico").0 == Catalogue()[1..4]
  {
    KeepsMiddle(Catalogue(), HasCategory("tecnico"));
  }

  /** A filter that keeps the three middle entries of five, and neither end. */
  lemma KeepsMiddle<T>(s: seq<T>, p: T -> bool)
    requires |s| == 5 && !p(s[0]) && p(s[1]) && p(s[2]) && p(s[3]) && !p(s[4])
    ensures Filter(s, p) == s[1..4]
  {
    FilterNone(s[4..], p);
    assert Filter(s[3..], p) == [s[3]] + Filter(s[4..], p) by { assert s[3..][1..] == s[4..]; }
    assert Filter(s[2..], p) == [s[2]] + Filter(s[3..], p) by { assert s[2..][1..] == s[3..]; }
    assert Filter(s[1..], p) == [s[1]] + Filter(s[2..], p) by { assert s[1..][1..] == s[2..]; }
    assert s[1..4] == [s[1], s[2], s[3]];
  }

  lemma LegalListed()
    ensures ByCategory("legal").0 == [Catalogue()[4]]
  {
  }

  /** Any other category lists nothing. */
  lemma OtherCategoryEmpty(category: string)
    requires category != "ambiental" && category != "tecnico" && category != "legal"
    ensures ByCategory(category) == ([], 0)
  {
  }
}
