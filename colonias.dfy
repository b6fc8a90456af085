/** The neighbourhoods of zone 4 of Mixco offered at registration
    (client/src/data/colonias.js): the `colonias` table and the
    `coloniasAgrupadas` grouping of it by category for a grouped select. */
module Colonias {
  import opened Common

  /** The five values of the `category` property. */
  datatype Area = SanNicolas | Naranjo | Montserrat | Minerva | Otras

  /** The `category` string of each area. */
  function CategoryName(a: Area): string
  {
    match a
    case SanNicolas => "San Nicolás"
    case Naranjo => "Naranjo"
    case Montserrat => "Montserrat"
    case Minerva => "Minerva"
    case Otras => "Otras"
  }

  /** Distinct areas have distinct category strings, so comparing areas is
      comparing the strings. */
  lemma CategoryNameInjective(a: Area, b: Area)
    ensures CategoryName(a) == CategoryName(b) <==> a == b
  {
    if a != b {
      assert CategoryName(a)[0] != CategoryName(b)[0] || |CategoryName(a)| != |CategoryName(b)|;
    }
  }

  /** One option of the select: its place, which gives its `value` and
      `label`, and its `category`. */
  datatype Colonia = Colonia(place: Place, category: Area)

  /** A group of the select: its heading (`label`) and its options. */
  datatype Group = Group(heading: string, options: seq<Colonia>)

  /** The 34 neighbourhoods, one per entry; the `value` and `label` strings
      of each are functions of the place below. */
  datatype Place =
    | BosquesDeSanNicolas | CondadoSanNicolasI | CondadoSanNicolasII
    | CondadoSanNicolasIII | ElCortijoDeSanNicolas | VistasDelNaranjo
    | ColoniaMontserratI | ColoniaMontserratII | ColoniaMontserrat
    | ColoniaVallesDelNaranjo | ColoniaElNaranjo | VillasNaranjo
    | CondadoNaranjo | AldeaNaranjo | ColinasDeMinerva
    | PlanesDeMinerva | MinervaSur | JardinesDeMinerva
    | ColoniaPrimeroDeMayo | ColoniaMonteVerde | ColoniaMonteReal
    | ColoniaValleDelSol | VillasDeSanJoseI | ValleNuevoI
    | ResidencialElValle | ResidencialElEncinal | ResidencialSanIgnacio
    | ResidencialVillasDelRosario | CondominioLaFontana | JardinesDeTulamTzu
    | VillasNimajay | AldeaLoDeFuentes | ColoniaPequenoTinco
    | Otra

  /** The `value` of each place. */
  function Value(p: Place): string
  {
    match p
    case BosquesDeSanNicolas => "Bosques de San Nicolás"
    case CondadoSanNicolasI => "Condado San Nicolás I"
    case CondadoSanNicolasII => "Condado San Nicolás II"
    case CondadoSanNicolasIII => "Condado San Nicolás III"
    case ElCortijoDeSanNicolas => "El Cortijo de San Nicolás"
    case VistasDelNaranjo => "Vistas del Naranjo"
    case ColoniaMontserratI => "Colonia Montserrat I"
    case ColoniaMontserratII => "Colonia Montserrat II"
    case ColoniaMontserrat => "Colonia Montserrat"
    case ColoniaVallesDelNaranjo => "Colonia Valles del Naranjo"
    case ColoniaElNaranjo => "Colonia El Naranjo"
    case VillasNaranjo => "Villas Naranjo"
    case CondadoNaranjo => "Condado Naranjo"
    case AldeaNaranjo => "Aldea Naranjo"
    case ColinasDeMinerva => "Colinas de Minerva"
    case PlanesDeMinerva => "Planes de Minerva"
    case MinervaSur => "Minerva Sur"
    case JardinesDeMinerva => "Jardines de Minerva"
    case ColoniaPrimeroDeMayo => "Colonia Primero de Mayo"
    case ColoniaMonteVerde => "Colonia Monte Verde"
    case ColoniaMonteReal => "Colonia Monte Real"
    case ColoniaValleDelSol => "Colonia Valle del Sol"
    case VillasDeSanJoseI => "Villas de San José I"
    case ValleNuevoI => "Valle Nuevo I"
    case ResidencialElValle => "Residencial El Valle"
    case ResidencialElEncinal => "Residencial El Encinal"
    case ResidencialSanIgnacio => "Residencial San Ignacio"
    case ResidencialVillasDelRosario => "Residencial Villas del Rosario"
    case CondominioLaFontana => "Condominio La Fontana"
    case JardinesDeTulamTzu => "Jardines de Tulam Tzu"
    case VillasNimajay => "Villas Nimajay"
    case AldeaLoDeFuentes => "Aldea Lo de Fuentes"
    case ColoniaPequenoTinco => "Colonia Pequeño Tinco"
    case Otra => "Otra"
  }

  /** The `label` of each place. */
  function Label(p: Place): string
  {
    match p
    case BosquesDeSanNicolas => "Bosques de San Nicolás"
    case CondadoSanNicolasI => "Condado San Nicolás I"
    case CondadoSanNicolasII => "Condado San Nicolás II"
    case CondadoSanNicolasIII => "Condado San Nicolás III"
    case ElCortijoDeSanNicolas => "El Cortijo de San Nicolás"
    case VistasDelNaranjo => "Vistas del Naranjo"
    case ColoniaMontserratI => "Colonia Montserrat I"
    case ColoniaMontserratII => "Colonia Montserrat II"
    case ColoniaMontserrat => "Colonia Montserrat"
    case ColoniaVallesDelNaranjo => "Colonia Valles del Naranjo"
    case ColoniaElNaranjo => "Colonia El Naranjo"
    case VillasNaranjo => "Villas Naranjo"
    case CondadoNaranjo => "Condado Naranjo"
    case AldeaNaranjo => "Aldea Naranjo"
    case ColinasDeMinerva => "Colinas de Minerva"
    case PlanesDeMinerva => "Planes de Minerva"
    case MinervaSur => "Minerva Sur"
    case JardinesDeMinerva => "Jardines de Minerva"
    case ColoniaPrimeroDeMayo => "Colonia Primero de Mayo"
    case ColoniaMonteVerde => "Colonia Monte Verde"
    case ColoniaMonteReal => "Colonia Monte Real"
    case ColoniaValleDelSol => "Colonia Valle del Sol"
    case VillasDeSanJoseI => "Villas de San José I"
    case ValleNuevoI => "Valle Nuevo I"
    case ResidencialElValle => "Residencial El Valle"
    case ResidencialElEncinal => "Residencial El Encinal"
    case ResidencialSanIgnacio => "Residencial San Ignacio"
    case ResidencialVillasDelRosario => "Residencial Villas del Rosario"
    case CondominioLaFontana => "Condominio La Fontana"
    case JardinesDeTulamTzu => "Jardines de Tulam Tzu"
    case VillasNimajay => "Villas Nimajay"
    case AldeaLoDeFuentes => "Aldea Lo de Fuentes"
    case ColoniaPequenoTinco => "Colonia Pequeño Tinco"
    case Otra => "Otra (especificar en comentario)"
  }

  /** The entries in table order; the `place` column. */
  function Places(): (k: seq<Place>)
    ensures |k| == 34
  {
    [ BosquesDeSanNicolas, CondadoSanNicolasI, CondadoSanNicolasII, CondadoSanNicolasIII,
      ElCortijoDeSanNicolas, VistasDelNaranjo, ColoniaMontserratI, ColoniaMontserratII,
      ColoniaMontserrat, ColoniaVallesDelNaranjo, ColoniaElNaranjo, VillasNaranjo,
      CondadoNaranjo, AldeaNaranjo, ColinasDeMinerva, PlanesDeMinerva,
      MinervaSur, JardinesDeMinerva, ColoniaPrimeroDeMayo, ColoniaMonteVerde,
      ColoniaMonteReal, ColoniaValleDelSol, VillasDeSanJoseI, ValleNuevoI,
      ResidencialElValle, ResidencialElEncinal, ResidencialSanIgnacio, ResidencialVillasDelRosario,
      CondominioLaFontana, JardinesDeTulamTzu, VillasNimajay, AldeaLoDeFuentes,
      ColoniaPequenoTinco, Otra ]
  }

  /** The row of each place in the table. */
  function Row(p: Place): (i: nat)
    ensures i < 34 && Places()[i] == p
  {
    match p
    case BosquesDeSanNicolas => 0
    case CondadoSanNicolasI => 1
    case CondadoSanNicolasII => 2
    case CondadoSanNicolasIII => 3
    case ElCortijoDeSanNicolas => 4
    case VistasDelNaranjo => 5
    case ColoniaMontserratI => 6
    case ColoniaMontserratII => 7
    case ColoniaMontserrat => 8
    case ColoniaVallesDelNaranjo => 9
    case ColoniaElNaranjo => 10
    case VillasNaranjo => 11
    case CondadoNaranjo => 12
    case AldeaNaranjo => 13
    case ColinasDeMinerva => 14
    case PlanesDeMinerva => 15
    case MinervaSur => 16
    case JardinesDeMinerva => 17
    case ColoniaPrimeroDeMayo => 18
    case ColoniaMonteVerde => 19
    case ColoniaMonteReal => 20
    case ColoniaValleDelSol => 21
    case VillasDeSanJoseI => 22
    case ValleNuevoI => 23
    case ResidencialElValle => 24
    case ResidencialElEncinal => 25
    case ResidencialSanIgnacio => 26
    case ResidencialVillasDelRosario => 27
    case CondominioLaFontana => 28
    case JardinesDeTulamTzu => 29
    case VillasNimajay => 30
    case AldeaLoDeFuentes => 31
    case ColoniaPequenoTinco => 32
    case Otra => 33
  }

  /** The `category` column. */
  function Categories(): (k: seq<Area>)
    ensures |k| == 34
  {
    [ SanNicolas, SanNicolas, SanNicolas, SanNicolas, SanNicolas, Naranjo,
      Montserrat, Montserrat, Montserrat, Naranjo, Naranjo, Naranjo,
      Naranjo, Naranjo, Minerva, Minerva, Minerva, Minerva,
      Otras, Otras, Otras, Otras, Otras, Otras,
      Otras, Otras, Otras, Otras, Otras, Otras,
      Otras, Otras, Otras, Otras ]
  }

  /** The `colonias` array, in its order, assembled from its two columns. */
  function ColoniaList(): (c: seq<Colonia>)
    ensures |c| == 34
    ensures forall i :: 0 <= i < 34 ==> c[i] == Colonia(Places()[i], Categories()[i])
  {
    seq(34, i requires 0 <= i < 34 => Colonia(Places()[i], Categories()[i]))
  }

  /** The areas of the five groups, in order. */
  function Areas(): (k: seq<Area>)
    ensures |k| == 5
  {
    [SanNicolas, Naranjo, Montserrat, Minerva, Otras]
  }

  /** The headings of the five groups, in order. */
  function GroupLabels(): (l: seq<string>)
    ensures |l| == 5
  {
    ["Colonias San Nicolás", "Área Naranjo", "Área Montserrat", "Área Minerva", "Otras Colonias"]
  }

  /** `c => c.category === name`. */
  function InCategory(a: Area): Colonia -> bool
  {
    (c: Colonia) => c.category == a
  }

  /** `coloniasAgrupadas`: one group per area, with the entries of that
      area in table order. */
  function Grouped(): (g: seq<Group>)
    ensures |g| == 5
    ensures forall i :: 0 <= i < 5 ==> g[i].heading == GroupLabels()[i]
    ensures forall i :: 0 <= i < 5 ==> g[i].options == Filter(ColoniaList(), InCategory(Areas()[i]))
  {
    seq(5, i requires 0 <= i < 5 => Group(GroupLabels()[i], Filter(ColoniaList(), InCategory(Areas()[i]))))
  }

  /** Every area has its group, and no area has two. */
  lemma AreasListed()
    ensures forall a: Area :: a in Areas()
    ensures forall i, j :: 0 <= i < j < 5 ==> Areas()[i] != Areas()[j]
  {
    forall a: Area ensures a in Areas() {
      var i := match a case SanNicolas => 0 case Naranjo => 1 case Montserrat => 2 case Minerva => 3 case Otras => 4;
      assert Areas()[i] == a;
    }
  }

  /** Grouping any table by the five areas puts each entry in exactly the
      group of its area. */
  lemma PartitionOf(list: seq<Colonia>, c: Colonia)
    requires c in list
    ensures forall i :: 0 <= i < 5 ==> (c in Filter(list, InCategory(Areas()[i])) <==> c.category == Areas()[i])
    ensures exists i :: 0 <= i < 5 && c in Filter(list, InCategory(Areas()[i]))
    ensures forall i, j :: 0 <= i < 5 && 0 <= j < 5 ==>
      (c in Filter(list, InCategory(Areas()[i])) && c in Filter(list, InCategory(Areas()[j])) ==> i == j)
  {
    AreasListed();
    assert c.category in Areas();
    var i :| 0 <= i < 5 && Areas()[i] == c.category;
    var k :| 0 <= k < |list| && list[k] == c;
    assert c in Filter(list, InCategory(Areas()[i]));
  }

  /** The groups partition the table: each entry is in exactly the group of
      its area, so in exactly one group. */
  lemma GroupedPartition(c: Colonia)
    requires c in ColoniaList()
    ensures forall i :: 0 <= i < 5 ==> (c in Grouped()[i].options <==> c.category == Areas()[i])
    ensures exists i :: 0 <= i < 5 && c in Grouped()[i].options
    ensures forall i, j :: 0 <= i < 5 && 0 <= j < 5 && c in Grouped()[i].options && c in Grouped()[j].options ==> i == j
  {
    PartitionOf(ColoniaList(), c);
  }

  /** Every entry of `s` is in area `a`. */
  predicate Uniform(s: seq<Colonia>, a: Area)
  {
    forall i :: 0 <= i < |s| ==> s[i].category == a
  }

  /** Filtering a run of one area keeps all of it or none of it. */
  lemma UniformFilter(s: seq<Colonia>, a: Area, b: Area)
    requires Uniform(s, a)
    ensures Filter(s, InCategory(b)) == if a == b then s else []
  {
    if a == b {
      FilterAll(s, InCategory(b));
    }
  }

  /** The table is six runs of one area each. */
  lemma RunsOfTable()
    ensures var list := ColoniaList();
      && Uniform(list[..5], SanNicolas) && Uniform(list[5..6], Naranjo)
      && Uniform(list[6..9], Montserrat) && Uniform(list[9..14], Naranjo)
      && Uniform(list[14..18], Minerva) && Uniform(list[18..], Otras)
  {
    RunSanNicolas();
    RunNaranjo();
    RunMontserrat();
    RunNaranjoEast();
    RunMinerva();
    RunOtras();
  }

  lemma RunSanNicolas()
    ensures Uniform(ColoniaList()[..5], SanNicolas)
  {
    assert CategoryRun(0, 5, SanNicolas);
    RunOf(0, 5, SanNicolas);
  }

  lemma RunNaranjo()
    ensures Uniform(ColoniaList()[5..6], Naranjo)
  {
    assert CategoryRun(5, 6, Naranjo);
    RunOf(5, 6, Naranjo);
  }

  lemma RunMontserrat()
    ensures Uniform(ColoniaList()[6..9], Montserrat)
  {
    assert CategoryRun(6, 9, Montserrat);
    RunOf(6, 9, Montserrat);
  }

  lemma RunNaranjoEast()
    ensures Uniform(ColoniaList()[9..14], Naranjo)
  {
    assert CategoryRun(9, 14, Naranjo);
    RunOf(9, 14, Naranjo);
  }

  lemma RunMinerva()
    ensures Uniform(ColoniaList()[14..18], Minerva)
  {
    assert CategoryRun(14, 18, Minerva);
    RunOf(14, 18, Minerva);
  }

  lemma RunOtras()
    ensures Uniform(ColoniaList()[18..], Otras)
  {
    assert CategoryRun(18, 34, Otras);
    RunOf(18, 34, Otras);
  }

  /** Rows `lo` to `hi` of the category column are all `a`. */
  predicate CategoryRun(lo: nat, hi: nat, a: Area)
    requires lo <= hi <= 34
  {
    forall i :: lo <= i < hi ==> Categories()[i] == a
  }

  lemma RunOf(lo: nat, hi: nat, a: Area)
    requires lo <= hi <= 34 && CategoryRun(lo, hi, a)
    ensures Uniform(ColoniaList()[lo..hi], a)
  {
    var list := ColoniaList();
    forall k | 0 <= k < hi - lo ensures list[lo..hi][k].category == a {
      assert list[lo..hi][k] == list[lo + k];
    }
  }

  /** Filtering the table is filtering its six runs. */
  lemma FilterRuns(p: Colonia -> bool)
    ensures var list := ColoniaList();
      Filter(list, p) == Filter(list[..5], p) + Filter(list[5..6], p) + Filter(list[6..9], p)
        + Filter(list[9..14], p) + Filter(list[14..18], p) + Filter(list[18..], p)
  {
    FilterSixRuns(ColoniaList(), p);
  }

  /** Filtering a list of at least 18 entries, cut at 5, 6, 9, 14 and 18. */
  lemma FilterSixRuns<T>(list: seq<T>, p: T -> bool)
    requires |list| >= 18
    ensures Filter(list, p) == Filter(list[..5], p) + Filter(list[5..6], p) + Filter(list[6..9], p)
        + Filter(list[9..14], p) + Filter(list[14..18], p) + Filter(list[18..], p)
  {
    var n := |list|;
    assert list[0..n] == list;
    FilterCut(list, 0, 18, n, p);
    FilterCut(list, 0, 14, 18, p);
    FilterCut(list, 0, 9, 14, p);
    FilterCut(list, 0, 6, 9, p);
    FilterCut(list, 0, 5, 6, p);
  }

  /** The group of area `b`, run by run. */
  lemma GroupOfArea(b: Area)
    ensures var list := ColoniaList();
      Filter(list, InCategory(b))
      == (if b == SanNicolas then list[..5] else []) + (if b == Naranjo then list[5..6] else [])
       + (if b == Montserrat then list[6..9] else []) + (if b == Naranjo then list[9..14] else [])
       + (if b == Minerva then list[14..18] else []) + (if b == Otras then list[18..] else [])
  {
    var list := ColoniaList();
    RunsOfTable();
    FilterRuns(InCategory(b));
    UniformFilter(list[..5], SanNicolas, b);
    UniformFilter(list[5..6], Naranjo, b);
    UniformFilter(list[6..9], Montserrat, b);
    UniformFilter(list[9..14], Naranjo, b);
    UniformFilter(list[14..18], Minerva, b);
    UniformFilter(list[18..], Otras, b);
  }

  lemma SanNicolasGroupSize()
    ensures |Grouped()[0].options| == 5
  {
    assert Areas()[0] == SanNicolas;
    GroupOfArea(SanNicolas);
  }

  lemma NaranjoGroupSize()
    ensures |Grouped()[1].options| == 6
  {
    assert Areas()[1] == Naranjo;
    GroupOfArea(Naranjo);
  }

  lemma MontserratGroupSize()
    ensures |Grouped()[2].options| == 3
  {
    assert Areas()[2] == Montserrat;
    GroupOfArea(Montserrat);
  }

  lemma MinervaGroupSize()
    ensures |Grouped()[3].options| == 4
  {
    assert Areas()[3] == Minerva;
    GroupOfArea(Minerva);
  }

  lemma OtrasGroupSize()
    ensures |Grouped()[4].options| == 16
  {
    assert Areas()[4] == Otras;
    GroupOfArea(Otras);
  }

  /** The size of each group; together they hold the 34 entries. */
  lemma GroupSizes()
    ensures |Grouped()[0].options| == 5
    ensures |Grouped()[1].options| == 6
    ensures |Grouped()[2].options| == 3
    ensures |Grouped()[3].options| == 4
    ensures |Grouped()[4].options| == 16
    ensures |Grouped()[0].options| + |Grouped()[1].options| + |Grouped()[2].options|
      + |Grouped()[3].options| + |Grouped()[4].options| == |ColoniaList()|
  {
    SanNicolasGroupSize();
    NaranjoGroupSize();
    MontserratGroupSize();
    MinervaGroupSize();
    OtrasGroupSize();
  }

  /** No two entries share a place, nor a `value`. */
  lemma ValuesDistinct()
    ensures forall i, j :: 0 <= i < j < |ColoniaList()| ==> ColoniaList()[i].place != ColoniaList()[j].place
    ensures forall i, j :: 0 <= i < j < |ColoniaList()| ==>
      Value(ColoniaList()[i].place) != Value(ColoniaList()[j].place)
  {
    RowsInOrder0();
    RowsInOrder1();
    RowsInOrder2();
    RowsInOrder3();
    RowsInOrder4();
    RowsInOrder5();
    RowsInOrder6();
    assert forall i :: 0 <= i < 34 ==> Row(Places()[i]) == i;
    forall i, j | 0 <= i < j < 34 ensures Value(Places()[i]) != Value(Places()[j]) {
      ValueInjective(Places()[i], Places()[j]);
    }
  }

  // `Row` numbers the places in table order, checked in blocks of five.

  lemma RowsInOrder0()
    ensures forall i :: 0 <= i < 5 ==> Row(Places()[i]) == i
  {
  }

  lemma RowsInOrder1()
    ensures forall i :: 5 <= i < 10 ==> Row(Places()[i]) == i
  {
  }

  lemma RowsInOrder2()
    ensures forall i :: 10 <= i < 15 ==> Row(Places()[i]) == i
  {
  }

  lemma RowsInOrder3()
    ensures forall i :: 15 <= i < 20 ==> Row(Places()[i]) == i
  {
  }

  lemma RowsInOrder4()
    ensures forall i :: 20 <= i < 25 ==> Row(Places()[i]) == i
  {
  }

  lemma RowsInOrder5()
    ensures forall i :: 25 <= i < 30 ==> Row(Places()[i]) == i
  {
  }

  lemma RowsInOrder6()
    ensures forall i :: 30 <= i < 34 ==> Row(Places()[i]) == i
  {
  }

  /** Three facts that tell the values apart: the length and two characters. */
  function Fingerprint(v: string): (int, char, char)
    requires |v| >= 4
  {
    (|v|, v[3], v[|v| - 1])
  }

  /** The fingerprint of each place's value, worked out by hand; no two are equal. */
  function PrintOf(p: Place): (int, char, char)
  {
    match p
    case BosquesDeSanNicolas => (22, 'q', 's')
    case CondadoSanNicolasI => (21, 'd', 'I')
    case CondadoSanNicolasII => (22, 'd', 'I')
    case CondadoSanNicolasIII => (23, 'd', 'I')
    case ElCortijoDeSanNicolas => (25, 'C', 's')
    case VistasDelNaranjo => (18, 't', 'o')
    case ColoniaMontserratI => (20, 'o', 'I')
    case ColoniaMontserratII => (21, 'o', 'I')
    case ColoniaMontserrat => (18, 'o', 't')
    case ColoniaVallesDelNaranjo => (26, 'o', 'o')
    case ColoniaElNaranjo => (18, 'o', 'o')
    case VillasNaranjo => (14, 'l', 'o')
    case CondadoNaranjo => (15, 'd', 'o')
    case AldeaNaranjo => (13, 'e', 'o')
    case ColinasDeMinerva => (18, 'i', 'a')
    case PlanesDeMinerva => (17, 'n', 'a')
    case MinervaSur => (11, 'e', 'r')
    case JardinesDeMinerva => (19, 'd', 'a')
    case ColoniaPrimeroDeMayo => (23, 'o', 'o')
    case ColoniaMonteVerde => (19, 'o', 'e')
    case ColoniaMonteReal => (18, 'o', 'l')
    case ColoniaValleDelSol => (21, 'o', 'l')
    case VillasDeSanJoseI => (20, 'l', 'I')
    case ValleNuevoI => (13, 'l', 'I')
    case ResidencialElValle => (20, 'i', 'e')
    case ResidencialElEncinal => (22, 'i', 'l')
    case ResidencialSanIgnacio => (23, 'i', 'o')
    case ResidencialVillasDelRosario => (30, 'i', 'o')
    case CondominioLaFontana => (21, 'd', 'a')
    case JardinesDeTulamTzu => (21, 'd', 'u')
    case VillasNimajay => (14, 'l', 'y')
    case AldeaLoDeFuentes => (19, 'e', 's')
    case ColoniaPequenoTinco => (21, 'o', 'o')
    case Otra => (4, 'a', 'a')
  }

  /** Each value has the fingerprint the table of fingerprints lists. */
  lemma ValueFingerprint(p: Place)
    ensures |Value(p)| >= 4 && Fingerprint(Value(p)) == PrintOf(p)
  {
    var i := Row(p);
    if i < 5 {
      ValueFingerprint0(p);
    } else if i < 10 {
      ValueFingerprint1(p);
    } else if i < 15 {
      ValueFingerprint2(p);
    } else if i < 20 {
      ValueFingerprint3(p);
    } else if i < 25 {
      ValueFingerprint4(p);
    } else if i < 30 {
      ValueFingerprint5(p);
    } else {
      ValueFingerprint6(p);
    }
  }

  // The fingerprints are checked five rows at a time.

  lemma ValueFingerprint0(p: Place)
    requires 0 <= Row(p) < 5
    ensures |Value(p)| >= 4 && Fingerprint(Value(p)) == PrintOf(p)
  {
  }

  lemma ValueFingerprint1(p: Place)
    requires 5 <= Row(p) < 10
    ensures |Value(p)| >= 4 && Fingerprint(Value(p)) == PrintOf(p)
  {
  }

  lemma ValueFingerprint2(p: Place)
    requires 10 <= Row(p) < 15
    ensures |Value(p)| >= 4 && Fingerprint(Value(p)) == PrintOf(p)
  {
  }

  lemma ValueFingerprint3(p: Place)
    requires 15 <= Row(p) < 20
    ensures |Value(p)| >= 4 && Fingerprint(Value(p)) == PrintOf(p)
  {
  }

  lemma ValueFingerprint4(p: Place)
    requires 20 <= Row(p) < 25
    ensures |Value(p)| >= 4 && Fingerprint(Value(p)) == PrintOf(p)
  {
  }

  lemma ValueFingerprint5(p: Place)
    requires 25 <= Row(p) < 30
    ensures |Value(p)| >= 4 && Fingerprint(Value(p)) == PrintOf(p)
  {
  }

  lemma ValueFingerprint6(p: Place)
    requires 30 <= Row(p) < 34
    ensures |Value(p)| >= 4 && Fingerprint(Value(p)) == PrintOf(p)
  {
  }

  /** The place of each fingerprint, read back from the table of fingerprints:
      by length first, then by the two characters. */
  function PlaceOfPrint(t: (int, char, char)): Place
  {
    match t.0
    case 4 => Otra
    case 11 => MinervaSur
    case 13 => if t.1 == 'e' && t.2 == 'o' then AldeaNaranjo else ValleNuevoI
    case 14 => if t.1 == 'l' && t.2 == 'o' then VillasNaranjo else VillasNimajay
    case 15 => CondadoNaranjo
    case 17 => PlanesDeMinerva
    case 18 => if t.1 == 't' && t.2 == 'o' then VistasDelNaranjo else if t.1 == 'o' && t.2 == 't' then ColoniaMontserrat else if t.1 == 'o' && t.2 == 'o' then ColoniaElNaranjo else if t.1 == 'i' && t.2 == 'a' then ColinasDeMinerva else ColoniaMonteReal
    case 19 => if t.1 == 'd' && t.2 == 'a' then JardinesDeMinerva else if t.1 == 'o' && t.2 == 'e' then ColoniaMonteVerde else AldeaLoDeFuentes
    case 20 => if t.1 == 'o' && t.2 == 'I' then ColoniaMontserratI else if t.1 == 'l' && t.2 == 'I' then VillasDeSanJoseI else ResidencialElValle
    case 21 => if t.1 == 'd' && t.2 == 'I' then CondadoSanNicolasI else if t.1 == 'o' && t.2 == 'I' then ColoniaMontserratII else if t.1 == 'o' && t.2 == 'l' then ColoniaValleDelSol else if t.1 == 'd' && t.2 == 'a' then CondominioLaFontana else if t.1 == 'd' && t.2 == 'u' then JardinesDeTulamTzu else ColoniaPequenoTinco
    case 22 => if t.1 == 'q' && t.2 == 's' then BosquesDeSanNicolas else if t.1 == 'd' && t.2 == 'I' then CondadoSanNicolasII else ResidencialElEncinal
    case 23 => if t.1 == 'd' && t.2 == 'I' then CondadoSanNicolasIII else if t.1 == 'o' && t.2 == 'o' then ColoniaPrimeroDeMayo else ResidencialSanIgnacio
    case 25 => ElCortijoDeSanNicolas
    case 26 => ColoniaVallesDelNaranjo
    case 30 => ResidencialVillasDelRosario
    case _ => Otra
  }

  /** Reading a place's fingerprint back gives the place. */
  lemma PrintRoundTrip(p: Place)
    ensures PlaceOfPrint(PrintOf(p)) == p
  {
    var i := Row(p);
    if i < 5 {
      PrintRoundTrip0(p);
    } else if i < 10 {
      PrintRoundTrip1(p);
    } else if i < 15 {
      PrintRoundTrip2(p);
    } else if i < 20 {
      PrintRoundTrip3(p);
    } else if i < 25 {
      PrintRoundTrip4(p);
    } else if i < 30 {
      PrintRoundTrip5(p);
    } else {
      PrintRoundTrip6(p);
    }
  }

  // The fingerprints are read back five rows at a time.

  lemma PrintRoundTrip0(p: Place)
    requires 0 <= Row(p) < 5
    ensures PlaceOfPrint(PrintOf(p)) == p
  {
  }

  lemma PrintRoundTrip1(p: Place)
    requires 5 <= Row(p) < 10
    ensures PlaceOfPrint(PrintOf(p)) == p
  {
  }

  lemma PrintRoundTrip2(p: Place)
    requires 10 <= Row(p) < 15
    ensures PlaceOfPrint(PrintOf(p)) == p
  {
  }

  lemma PrintRoundTrip3(p: Place)
    requires 15 <= Row(p) < 20
    ensures PlaceOfPrint(PrintOf(p)) == p
  {
  }

  lemma PrintRoundTrip4(p: Place)
    requires 20 <= Row(p) < 25
    ensures PlaceOfPrint(PrintOf(p)) == p
  {
  }

  lemma PrintRoundTrip5(p: Place)
    requires 25 <= Row(p) < 30
    ensures PlaceOfPrint(PrintOf(p)) == p
  {
  }

  lemma PrintRoundTrip6(p: Place)
    requires 30 <= Row(p) < 34
    ensures PlaceOfPrint(PrintOf(p)) == p
  {
  }

  /** Distinct places have distinct fingerprints. */
  lemma PrintInjective(p: Place, q: Place)
    ensures PrintOf(p) == PrintOf(q) ==> p == q
  {
    PrintRoundTrip(p);
    PrintRoundTrip(q);
  }

  /** Distinct places have distinct values. */
  lemma ValueInjective(p: Place, q: Place)
    ensures Value(p) == Value(q) ==> p == q
  {
    ValueFingerprint(p);
    ValueFingerprint(q);
    PrintInjective(p, q);
  }

  /** Every place is labelled by its own value, except `Otra`, the last
      entry, whose label asks for details in a comment. */
  lemma LabelIsValue(p: Place)
    ensures Label(p) == Value(p) <==> p != Otra
    ensures ColoniaList()[33] == Colonia(Otra, Otras)
    ensures Value(Otra) == "Otra" && Label(Otra) == "Otra (especificar en comentario)"
  {
    var i := Row(p);
    if i < 9 {
      LabelIsValue0(p);
    } else if i < 18 {
      LabelIsValue1(p);
    } else if i < 26 {
      LabelIsValue2(p);
    } else {
      LabelIsValue3(p);
    }
  }

  // The label column is compared with the value column in four blocks.

  lemma LabelIsValue0(p: Place)
    requires 0 <= Row(p) < 9
    ensures Label(p) == Value(p) <==> p != Otra
  {
  }

  lemma LabelIsValue1(p: Place)
    requires 9 <= Row(p) < 18
    ensures Label(p) == Value(p) <==> p != Otra
  {
  }

  lemma LabelIsValue2(p: Place)
    requires 18 <= Row(p) < 26
    ensures Label(p) == Value(p) <==> p != Otra
  {
  }

  lemma LabelIsValue3(p: Place)
    requires 26 <= Row(p) < 34
    ensures Label(p) == Value(p) <==> p != Otra
  {
  }
}
