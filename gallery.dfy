/** The organizer of the gallery page: both media lists are sorted most recent
    first, the photos are bucketed by "Momento <month> de <year>", and the page
    is laid out as one "Vídeos" section followed by one section per bucket. */
module Gallery {
  import opened Text
  import opened Timestamps
  import opened Sorting
  import opened Grouping

  /** One entry of `data/videos.json` or `data/photos.json`. Only the like
      counter changes after loading; the cards, the modal and the like button
      all see the same object. */
  class MediaItem {
    const filename: string
    const timestamp: string
    var likes: nat

    constructor (filename: string, timestamp: string, likes: nat)
      ensures this.filename == filename && this.timestamp == timestamp && this.likes == likes
    {
      this.filename := filename;
      this.timestamp := timestamp;
      this.likes := likes;
    }
  }

  predicate AllWellFormed(s: seq<MediaItem>) {
    forall i :: 0 <= i < |s| ==> WellFormed(s[i].timestamp)
  }

  /** The date key an item is sorted by. */
  function KeyOf(x: MediaItem): int {
    DateKey(x.timestamp)
  }

  // ---------------------------------------------------------------------------
  // Sorting
  // ---------------------------------------------------------------------------

  /** `items.sort((a, b) => dateB - dateA)`, applied in place to the videos
      and to the photos: an insertion sort that shifts every item the
      comparator ranks after the one being placed a step to the right. Items
      of the same date keep their order, as the platform's stable sort keeps
      them. */
  method SortByDate(a: array<MediaItem>)
    modifies a
    ensures a[..] == Sort(old(a[..]), KeyOf)
  {
    SortInPlace(a, KeyOf);
  }

  // ---------------------------------------------------------------------------
  // Bucket keys
  // ---------------------------------------------------------------------------

  const MonthNames: seq<string> := [
    "Janeiro", "Fevereiro", "Março", "Abril", "Maio", "Junho",
    "Julho", "Agosto", "Setembro", "Outubro", "Novembro", "Dezembro"
  ]

  /** `nomesMes[mes - 1]`, which a template literal prints as "undefined"
      when the month is outside 1..12. */
  function MonthName(m: nat): string {
    if 1 <= m <= 12 then MonthNames[m - 1] else "undefined"
  }

  /** The bucket key `Momento ${nomeMes} de ${ano}` of a timestamp. */
  function Label(ts: string): string {
    var d := Parse(ts);
    "Momento " + MonthName(d.month) + " de " + Show(d.year)
  }

  function LabelOf(x: MediaItem): string {
    Label(x.timestamp)
  }

  /** Only a month outside 1..12 prints as "undefined". */
  lemma MonthNameUndefined(m: nat)
    ensures MonthName(m) == "undefined" <==> !(1 <= m <= 12)
  {
  }

  lemma MonthNamesDistinct(m1: nat, m2: nat)
    requires 1 <= m1 <= 12 && 1 <= m2 <= 12
    ensures MonthName(m1) == MonthName(m2) ==> m1 == m2
    ensures ' ' !in MonthName(m1)
  {
  }

  /** Two well-formed timestamps get the same bucket key exactly when they fall
      in the same month of the same year. */
  lemma LabelInjective(a: string, b: string)
    requires WellFormed(a) && WellFormed(b)
    ensures Label(a) == Label(b) <==> Parse(a).month == Parse(b).month && Parse(a).year == Parse(b).year
  {
    var da, db := Parse(a), Parse(b);
    if Label(a) == Label(b) {
      var n1, n2 := MonthName(da.month), MonthName(db.month);
      var s1, s2 := Show(da.year), Show(db.year);
      MonthNamesDistinct(da.month, db.month);
      MonthNamesDistinct(db.month, da.month);
      CancelPrefixedWord("Momento ", n1, s1, n2, s2);
      ParseShow(da.year);
      ParseShow(db.year);
    }
  }

  /** Because the date key orders by year, then month, then day, a list sorted
      most recent first has each month's photos side by side. */
  lemma SortedIsContiguous(s: seq<MediaItem>)
    requires AllWellFormed(s) && SortedDesc(s, KeyOf)
    ensures Contiguous(Labels(s, LabelOf))
  {
    var L := Labels(s, LabelOf);
    forall i, j, l | 0 <= i < j < l < |L| && L[i] == L[l] ensures L[j] == L[i] {
      assert KeyOf(s[i]) >= KeyOf(s[j]) >= KeyOf(s[l]);
      SameMonthBetween(s[i], s[j], s[l]);
    }
  }

  /** A photo dated between two photos of one month falls in that month. */
  lemma SameMonthBetween(x: MediaItem, y: MediaItem, z: MediaItem)
    requires WellFormed(x.timestamp) && WellFormed(y.timestamp) && WellFormed(z.timestamp)
    requires KeyOf(x) >= KeyOf(y) >= KeyOf(z) && LabelOf(x) == LabelOf(z)
    ensures LabelOf(y) == LabelOf(x)
  {
    var dx, dy, dz := Parse(x.timestamp), Parse(y.timestamp), Parse(z.timestamp);
    LabelInjective(x.timestamp, z.timestamp);
    LabelInjective(x.timestamp, y.timestamp);
    KeyOrder(dx, dy);
    KeyOrder(dy, dz);
  }

  // ---------------------------------------------------------------------------
  // Grouping
  // ---------------------------------------------------------------------------

  /** The `fotos.reduce(...)` loop: walks the photos in order, creating a key's
      list the first time the key is seen and pushing each photo onto the list
      of its key. */
  method GroupByMonthYear(fotos: seq<MediaItem>) returns (keys: seq<string>, groups: map<string, seq<MediaItem>>)
    ensures Buckets(keys, groups) == Grouped(fotos, LabelOf)
  {
    keys, groups := GroupInto(fotos, LabelOf);
  }

  // ---------------------------------------------------------------------------
  // Page layout
  // ---------------------------------------------------------------------------

  /** A heading and the row of cards under it. */
  datatype Section = Section(title: string, items: seq<MediaItem>)

  const VideosTitle: string := "Vídeos"

  /** `Object.keys(agrupadoPorMesAno).forEach(...)`: one section per key, in key order. */
  function PhotoSections(keys: seq<string>, byKey: map<string, seq<MediaItem>>): (r: seq<Section>)
    requires forall i :: 0 <= i < |keys| ==> keys[i] in byKey
    ensures |r| == |keys|
    ensures forall i :: 0 <= i < |keys| ==> r[i] == Section(keys[i], byKey[keys[i]])
  {
    if keys == [] then []
    else PhotoSections(keys[..|keys| - 1], byKey) + [Section(keys[|keys| - 1], byKey[keys[|keys| - 1]])]
  }

  /** The items of a run of sections, section after section. */
  function SectionItems(sections: seq<Section>): seq<MediaItem> {
    if sections == [] then []
    else SectionItems(sections[..|sections| - 1]) + sections[|sections| - 1].items
  }

  lemma {:induction false} SectionItemsConcat(keys: seq<string>, byKey: map<string, seq<MediaItem>>)
    requires forall i :: 0 <= i < |keys| ==> keys[i] in byKey
    ensures SectionItems(PhotoSections(keys, byKey)) == Concat(keys, byKey)
  {
    if keys != [] {
      SectionItemsConcat(keys[..|keys| - 1], byKey);
      assert PhotoSections(keys, byKey)[..|keys| - 1] == PhotoSections(keys[..|keys| - 1], byKey);
    }
  }

  /** The sections the page shows for the loaded lists, in the order they are
      appended: the "Vídeos" section, then one per photo bucket. */
  function Page(videos: seq<MediaItem>, photos: seq<MediaItem>): seq<Section> {
    var b := Grouped(Sort(photos, KeyOf), LabelOf);
    GroupedKeysPresent(Sort(photos, KeyOf), LabelOf);
    [Section(VideosTitle, Sort(videos, KeyOf))] + PhotoSections(b.keys, b.byKey)
  }

  /** The "Vídeos" section always comes first, with the videos most recent
      first, even when there are none; no photos means no further sections. */
  lemma PageVideos(videos: seq<MediaItem>, photos: seq<MediaItem>)
    ensures |Page(videos, photos)| >= 1
    ensures Page(videos, photos)[0] == Section(VideosTitle, Sort(videos, KeyOf))
    ensures SortedDesc(Page(videos, photos)[0].items, KeyOf)
    ensures photos == [] ==> Page(videos, photos) == [Section(VideosTitle, Sort(videos, KeyOf))]
  {
    SortIsSorted(videos, KeyOf);
  }

  /** After the "Vídeos" section, each section is a distinct month, headed by
      its label, and holds only photos of that month. */
  lemma PageMonths(videos: seq<MediaItem>, photos: seq<MediaItem>)
    ensures forall i, j :: 1 <= i < j < |Page(videos, photos)| ==>
      Page(videos, photos)[i].title != Page(videos, photos)[j].title
    ensures forall i, j :: 1 <= i < |Page(videos, photos)| && 0 <= j < |Page(videos, photos)[i].items| ==>
      LabelOf(Page(videos, photos)[i].items[j]) == Page(videos, photos)[i].title
  {
    var b := Grouped(Sort(photos, KeyOf), LabelOf);
    GroupedKeysPresent(Sort(photos, KeyOf), LabelOf);
    assert Distinct(b.keys) by {
      GroupedBuckets(Sort(photos, KeyOf), LabelOf);
    }
    assert forall k, j :: k in b.byKey && 0 <= j < |b.byKey[k]| ==> LabelOf(b.byKey[k][j]) == k by {
      GroupedLabels(Sort(photos, KeyOf), LabelOf);
    }
    var ps := PhotoSections(b.keys, b.byKey);
    PhotoSectionsMonths(b.keys, b.byKey);
    var page := Page(videos, photos);
    assert page[1..] == ps;
    forall i, j | 1 <= i < j < |page| ensures page[i].title != page[j].title {
      assert page[i] == page[1..][i - 1];
      assert page[j] == page[1..][j - 1];
    }
    forall i, j | 1 <= i < |page| && 0 <= j < |page[i].items| ensures LabelOf(page[i].items[j]) == page[i].title {
      assert page[i] == page[1..][i - 1];
    }
  }

  /** Sections built from distinct keys, each holding photos of its key, have
      distinct titles and hold only photos of their title. */
  lemma PhotoSectionsMonths(keys: seq<string>, byKey: map<string, seq<MediaItem>>)
    requires forall i :: 0 <= i < |keys| ==> keys[i] in byKey
    requires Distinct(keys)
    requires forall k, j :: k in byKey && 0 <= j < |byKey[k]| ==> LabelOf(byKey[k][j]) == k
    ensures forall i, j :: 0 <= i < j < |PhotoSections(keys, byKey)| ==>
      PhotoSections(keys, byKey)[i].title != PhotoSections(keys, byKey)[j].title
    ensures forall i, j :: 0 <= i < |PhotoSections(keys, byKey)| && 0 <= j < |PhotoSections(keys, byKey)[i].items| ==>
      LabelOf(PhotoSections(keys, byKey)[i].items[j]) == PhotoSections(keys, byKey)[i].title
  {
  }

  /** Read one after another, the photo sections give exactly the photos, most
      recent first: no photo is lost, repeated or moved. */
  lemma PagePhotos(videos: seq<MediaItem>, photos: seq<MediaItem>)
    requires AllWellFormed(photos)
    ensures SectionItems(Page(videos, photos)[1..]) == Sort(photos, KeyOf)
  {
    var sorted := Sort(photos, KeyOf);
    var b := Grouped(sorted, LabelOf);
    SortIsSorted(photos, KeyOf);
    assert AllWellFormed(sorted) by {
      forall i | 0 <= i < |sorted| ensures WellFormed(sorted[i].timestamp) {
        assert sorted[i] in multiset(photos);
      }
    }
    SortedIsContiguous(sorted);
    ContiguousConcat(sorted, LabelOf);
    assert Page(videos, photos)[1..] == PhotoSections(b.keys, b.byKey);
    SectionItemsConcat(b.keys, b.byKey);
  }

  /** The loader's callback from the two parsed lists to the laid-out page:
      both arrays are sorted in place, the photos are grouped, and the sections
      are produced in display order. */
  method Organize(videos: array<MediaItem>, fotos: array<MediaItem>) returns (sections: seq<Section>)
    requires videos != fotos
    modifies videos, fotos
    ensures videos[..] == Sort(old(videos[..]), KeyOf)
    ensures fotos[..] == Sort(old(fotos[..]), KeyOf)
    ensures sections == Page(old(videos[..]), old(fotos[..]))
  {
    SortByDate(videos);
    SortByDate(fotos);
    var keys, groups := GroupByMonthYear(fotos[..]);
    GroupedKeysPresent(fotos[..], LabelOf);
    sections := LayOut(Section(VideosTitle, videos[..]), keys, groups);
  }

  /** The rendering loop: the first section, then one section per key, in key
      order, each holding that key's list. */
  method LayOut(first: Section, keys: seq<string>, groups: map<string, seq<MediaItem>>) returns (sections: seq<Section>)
    requires forall i :: 0 <= i < |keys| ==> keys[i] in groups
    ensures sections == [first] + PhotoSections(keys, groups)
  {
    sections := [first];
    var i := 0;
    while i < |keys|
      invariant 0 <= i <= |keys|
      invariant sections == [first] + PhotoSections(keys[..i], groups)
    {
      assert keys[..i + 1][..i] == keys[..i];
      sections := sections + [Section(keys[i], groups[keys[i]])];
      i := i + 1;
    }
    assert keys[..i] == keys;
  }

  /** Photos dated 15/03/2024, 02/03/2024 and 20/01/2024, in that order, are
      shown as a March section holding the two March photos, most recent
      first, followed by a January section. */
  lemma MarchBeforeJanuary(a: MediaItem, b: MediaItem, c: MediaItem)
    requires a.timestamp == "15/03/2024" && b.timestamp == "02/03/2024" && c.timestamp == "20/01/2024"
    ensures Sort([a, b, c], KeyOf) == [a, b, c]
    ensures Grouped(Sort([a, b, c], KeyOf), LabelOf) ==
      Buckets(["Momento Março de 2024", "Momento Janeiro de 2024"],
              map["Momento Março de 2024" := [a, b], "Momento Janeiro de 2024" := [c]])
  {
    ExampleDates(a, b, c);
    ExampleLabels();
    ExampleItem(a, Date(15, 3, 2024));
    ExampleItem(b, Date(2, 3, 2024));
    ExampleItem(c, Date(20, 1, 2024));
    SortedThree(a, b, c, KeyOf);
    SortSorted([a, b, c], KeyOf);
    GroupedThree(a, b, c, LabelOf);
  }

  /** Photos dated 02/03/2024, 15/03/2024 and 02/03/2024 sort with the
      15th first; the two photos of the 2nd keep the order they came in, as
      the stable sort keeps them. */
  lemma SameDateExample(a: MediaItem, b: MediaItem, c: MediaItem)
    requires a.timestamp == "02/03/2024" && b.timestamp == "15/03/2024" && c.timestamp == "02/03/2024"
    ensures Sort([a, b, c], KeyOf) == [b, a, c]
  {
    ExampleNumbers();
    ParseFields("02", "03", "2024");
    ParseFields("15", "03", "2024");
    assert a.timestamp == "02" + "/" + "03" + "/" + "2024";
    assert b.timestamp == "15" + "/" + "03" + "/" + "2024";
    ExampleItem(a, Date(2, 3, 2024));
    ExampleItem(c, Date(2, 3, 2024));
    ExampleItem(b, Date(15, 3, 2024));
    StableThree([a, b, c], KeyOf);
  }

  lemma ExampleDates(a: MediaItem, b: MediaItem, c: MediaItem)
    requires a.timestamp == "15/03/2024" && b.timestamp == "02/03/2024" && c.timestamp == "20/01/2024"
    ensures Parse(a.timestamp) == Date(15, 3, 2024)
    ensures Parse(b.timestamp) == Date(2, 3, 2024)
    ensures Parse(c.timestamp) == Date(20, 1, 2024)
  {
    ExampleNumbers();
    ParseFields("15", "03", "2024");
    ParseFields("02", "03", "2024");
    ParseFields("20", "01", "2024");
    assert a.timestamp == "15" + "/" + "03" + "/" + "2024";
    assert b.timestamp == "02" + "/" + "03" + "/" + "2024";
    assert c.timestamp == "20" + "/" + "01" + "/" + "2024";
  }

  lemma ExampleNumbers()
    ensures ParseNat("2024") == 2024
    ensures ParseNat("15") == 15 && ParseNat("20") == 20
    ensures ParseNat("01") == 1 && ParseNat("02") == 2 && ParseNat("03") == 3
  {
    assert "2024"[..3] == "202" && "202"[..2] == "20" && "20"[..1] == "2" && "2"[..0] == "";
    assert "15"[..1] == "1" && "01"[..1] == "0" && "02"[..1] == "0" && "03"[..1] == "0";
    assert "1"[..0] == "" && "0"[..0] == "";
  }

  lemma ExampleLabels()
    ensures "Momento " + MonthName(3) + " de " + Show(2024) == "Momento Março de 2024"
    ensures "Momento " + MonthName(1) + " de " + Show(2024) == "Momento Janeiro de 2024"
  {
    Show2024();
    assert MonthName(3) == "Março" && MonthName(1) == "Janeiro";
  }

  /** The year of the examples prints as "2024", digit by digit. */
  lemma Show2024()
    ensures Show(2024) == "2024"
  {
    assert DigitChar(2) == '2' && DigitChar(0) == '0' && DigitChar(4) == '4';
    assert Show(2) == "2";
    assert Show(20) == "20";
    assert Show(202) == "202";
  }

  lemma ExampleItem(x: MediaItem, d: Date)
    requires Parse(x.timestamp) == d
    ensures KeyOf(x) == Key(d)
    ensures LabelOf(x) == "Momento " + MonthName(d.month) + " de " + Show(d.year)
  {
  }
}
