/** The doctor list of HomeScreen.js (`filteredAndSortedDoctors`): a text
    search over name and specialty, a specialty filter, and one of three
    orderings. */
module HomeScreen {
  import opened Lists
  import opened Entities
  import Text

  /** `SPECIALTIES[0]`: the entry that disables the specialty filter. */
  const AllSpecialties := "Все специальности"

  /** The keys of `SORT_OPTIONS`. */
  const ByRating := "rating"
  const ByName := "name"
  const ByExperience := "experience"

  /** The search test for a non-empty query. */
  predicate SearchMatches(query: string, d: Doctor)
  {
    var q := Text.Lower(query);
    Text.Includes(Text.Lower(d.name), q) || Text.Includes(Text.Lower(d.specialty), q)
  }

  /** Both filters: an empty query and `AllSpecialties` each let every
      doctor through. */
  predicate Passes(query: string, specialty: string, d: Doctor)
  {
    (query == "" || SearchMatches(query, d)) && (specialty == AllSpecialties || d.specialty == specialty)
  }

  /** `a.name.localeCompare(b.name) < 0` */
  function NameOrder(): (Doctor, Doctor) -> bool
  {
    (a: Doctor, b: Doctor) => Text.LexLess(a.name, b.name)
  }

  /** The comparator chosen by `sortBy`; an unknown option returns 0. */
  function Comparator(sortBy: string): (Doctor, Doctor) -> bool
  {
    if sortBy == ByRating then Descending((d: Doctor) => d.rating)
    else if sortBy == ByName then NameOrder()
    else if sortBy == ByExperience then Descending((d: Doctor) => d.experience as real)
    else Unordered()
  }

  /** Filtering by name is a strict weak ordering, so the stable sort puts
      names in non-decreasing order. */
  lemma NameOrderIsStrictWeakOrder()
    ensures StrictWeakOrder(NameOrder())
  {
    var before := NameOrder();
    forall a, b | before(a, b)
      ensures !before(b, a)
    {
      Text.LexTrichotomy(a.name, b.name);
    }
    forall a, b, c | before(a, c)
      ensures before(a, b) || before(b, c)
    {
      Text.LexTrichotomy(a.name, b.name);
      Text.LexTrichotomy(b.name, c.name);
      if !before(a, b) && !before(b, c) {
        if a.name != b.name {
          if b.name != c.name {
            Text.LexTransitive(c.name, b.name, a.name);
          }
          Text.LexTrichotomy(a.name, c.name);
        } else {
          Text.LexTrichotomy(b.name, c.name);
        }
      }
    }
  }

  /** `filteredAndSortedDoctors` over a copy of `doctors` (the input is not
      touched). */
  function VisibleDoctors(doctors: seq<Doctor>, query: string, specialty: string, sortBy: string): (r: seq<Doctor>)
    ensures forall d :: d in r <==> d in doctors && Passes(query, specialty, d)
    ensures multiset(r) == multiset(Filter(doctors, (d: Doctor) => Passes(query, specialty, d)))
    ensures sortBy == ByRating ==> forall i, j :: 0 <= i < j < |r| ==> r[i].rating >= r[j].rating
    ensures sortBy == ByName ==> forall i, j :: 0 <= i < j < |r| ==> !Text.LexLess(r[j].name, r[i].name)
    ensures sortBy == ByExperience ==> forall i, j :: 0 <= i < j < |r| ==> r[i].experience >= r[j].experience
    ensures sortBy !in {ByRating, ByName, ByExperience} ==>
      r == Filter(doctors, (d: Doctor) => Passes(query, specialty, d))
  {
    var filtered := Filtered(doctors, query, specialty);
    SortOrder(filtered, sortBy);
    var r := Sort(filtered, Comparator(sortBy));
    SameMembers(r, filtered);
    r
  }

  /** The search filter (only for a non-empty query) followed by the
      specialty filter (only for a specific specialty): exactly the doctors
      passing both, in stored order. */
  function Filtered(doctors: seq<Doctor>, query: string, specialty: string): (r: seq<Doctor>)
    ensures r == Filter(doctors, (d: Doctor) => Passes(query, specialty, d))
  {
    var searched := if query != "" then Filter(doctors, (d: Doctor) => SearchMatches(query, d)) else doctors;
    FiltersCompose(doctors, query, specialty);
    if specialty != AllSpecialties then Filter(searched, (d: Doctor) => d.specialty == specialty) else searched
  }

  /** The two filters applied one after the other equal one filter by
      `Passes`. */
  lemma FiltersCompose(doctors: seq<Doctor>, query: string, specialty: string)
    ensures var searched := if query != "" then Filter(doctors, (d: Doctor) => SearchMatches(query, d)) else doctors;
      (if specialty != AllSpecialties then Filter(searched, (d: Doctor) => d.specialty == specialty) else searched)
      == Filter(doctors, (d: Doctor) => Passes(query, specialty, d))
  {
    var search := (d: Doctor) => SearchMatches(query, d);
    var pick := (d: Doctor) => d.specialty == specialty;
    var both := (d: Doctor) => Passes(query, specialty, d);
    if query != "" && specialty != AllSpecialties {
      FilterTwice(doctors, search, pick, both);
    } else if query != "" {
      FilterSame(doctors, search, both);
    } else if specialty != AllSpecialties {
      FilterSame(doctors, pick, both);
    } else {
      FilterAll(doctors, both);
    }
  }

  /** What the stable sort guarantees for each option. */
  lemma SortOrder(s: seq<Doctor>, sortBy: string)
    ensures sortBy == ByRating ==> forall i, j :: 0 <= i < j < |s| ==> Sort(s, Comparator(sortBy))[i].rating >= Sort(s, Comparator(sortBy))[j].rating
    ensures sortBy == ByName ==> forall i, j :: 0 <= i < j < |s| ==> !Text.LexLess(Sort(s, Comparator(sortBy))[j].name, Sort(s, Comparator(sortBy))[i].name)
    ensures sortBy == ByExperience ==> forall i, j :: 0 <= i < j < |s| ==> Sort(s, Comparator(sortBy))[i].experience >= Sort(s, Comparator(sortBy))[j].experience
    ensures sortBy !in {ByRating, ByName, ByExperience} ==> Sort(s, Comparator(sortBy)) == s
  {
    if sortBy == ByRating {
      SortDescending(s, (d: Doctor) => d.rating);
    } else if sortBy == ByName {
      NameOrderIsStrictWeakOrder();
      SortSorted(s, NameOrder());
    } else if sortBy == ByExperience {
      SortDescending(s, (d: Doctor) => d.experience as real);
    } else {
      SortUnordered(s, Unordered<Doctor>());
    }
  }

  /** With no query, the default specialty and an unknown option the list is
      shown as stored. */
  lemma NoFiltersShowAll(doctors: seq<Doctor>, sortBy: string)
    requires sortBy !in {ByRating, ByName, ByExperience}
    ensures VisibleDoctors(doctors, "", AllSpecialties, sortBy) == doctors
  {
    FilterAll(doctors, (d: Doctor) => Passes("", AllSpecialties, d));
  }
}
