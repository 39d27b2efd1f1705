/** The viewer behind the gallery page: the cards with their like badges, the
    modal that shows one item large, and the like button that bumps the shown
    item's counter and refreshes every badge of that item. */
module Modal {
  import opened Wrappers
  import opened Text
  import opened Sorting
  import opened Gallery

  datatype Kind = Photo | Video

  /** The `src` the page gives a medium: `img/<filename>` for photos and
      `videos/<filename>` for videos. */
  function MediaPath(kind: Kind, filename: string): string {
    match kind
    case Photo => "img/" + filename
    case Video => "videos/" + filename
  }

  /** A path determines both the kind and the file name: the two prefixes
      differ in their first character. */
  lemma MediaPathInjective(k1: Kind, f1: string, k2: Kind, f2: string)
    ensures MediaPath(k1, f1) == MediaPath(k2, f2) <==> k1 == k2 && f1 == f2
  {
    var p1, p2 := MediaPath(k1, f1), MediaPath(k2, f2);
    if p1 == p2 {
      assert p1[0] == p2[0];
      var n := if k1 == Photo then 4 else 7;
      assert f1 == p1[n..] && f2 == p2[n..];
    }
  }

  /** A card of the page: the kind of medium it holds, the medium's `src`,
      and the text of its like badge. */
  datatype Card = Card(kind: Kind, src: string, likesText: string)

  /** The item the modal shows, `itemAtual = { tipo, obj }`. */
  datatype Entry = Entry(kind: Kind, obj: MediaItem)

  /** The card the page renders for an item, its badge showing `${likes}`. */
  function CardOf(e: Entry): Card
    reads e.obj
  {
    Card(e.kind, MediaPath(e.kind, e.obj.filename), Show(e.obj.likes))
  }

  /** A card's badge reads back as its item's like count. */
  lemma BadgeCount(e: Entry)
    ensures IsNumeral(CardOf(e).likesText) && ParseNat(CardOf(e).likesText) == e.obj.likes
  {
    ParseShow(e.obj.likes);
  }

  /** The like handler's test on a card: the card holds a medium of the shown
      item's kind (an `img` for a photo, a `video` for a video) whose `src` is
      the path rebuilt from the shown item's file name. */
  predicate Matches(c: Card, kind: Kind, filename: string) {
    c.kind == kind && c.src == MediaPath(kind, filename)
  }

  /** An item's own card is exactly the one the like handler picks for a
      given kind and file name when the item has that kind and file name. */
  lemma CardMatches(e: Entry, kind: Kind, filename: string)
    ensures Matches(CardOf(e), kind, filename) <==> e.kind == kind && e.obj.filename == filename
  {
    MediaPathInjective(e.kind, e.obj.filename, kind, filename);
  }

  /** What the modal's media container holds: nothing yet, an image, or a
      video player with its playback state. */
  datatype ModalMedia = NoMedia | Picture(src: string, alt: string) | Player(src: string, paused: bool, position: nat)

  /** The modal's heading: `Vídeo: <timestamp>` for a video, the bare
      timestamp for a photo. */
  function TitleOf(e: Entry): string {
    match e.kind
    case Video => "Vídeo: " + e.obj.timestamp
    case Photo => e.obj.timestamp
  }

  /** Each of a list of items, tagged with its kind. */
  function Tagged(kind: Kind, s: seq<MediaItem>): (r: seq<Entry>)
    ensures |r| == |s|
    ensures forall i :: 0 <= i < |s| ==> r[i] == Entry(kind, s[i])
  {
    if s == [] then [] else Tagged(kind, s[..|s| - 1]) + [Entry(kind, s[|s| - 1])]
  }

  /** The items behind the page's cards in document order: the videos of the
      first section, then the photos of the later sections. */
  function PageEntries(page: seq<Section>): seq<Entry> {
    if page == [] then [] else Tagged(Video, page[0].items) + Tagged(Photo, SectionItems(page[1..]))
  }

  /** The cards of the laid-out page are the videos, then the photos, each
      list most recent first. */
  lemma PageCards(videos: seq<MediaItem>, photos: seq<MediaItem>)
    requires AllWellFormed(photos)
    ensures PageEntries(Page(videos, photos)) == Tagged(Video, Sort(videos, KeyOf)) + Tagged(Photo, Sort(photos, KeyOf))
  {
    PageVideos(videos, photos);
    PagePhotos(videos, photos);
  }

  /** Items of one kind that share a file name are the same item, and an item
      has one kind. Then a card's path names exactly one item. */
  ghost predicate UniqueFiles(entries: seq<Entry>) {
    && (forall k, l :: 0 <= k < |entries| && 0 <= l < |entries| &&
          entries[k].kind == entries[l].kind && entries[k].obj.filename == entries[l].obj.filename
          ==> entries[k].obj == entries[l].obj)
    && (forall k, l :: 0 <= k < |entries| && 0 <= l < |entries| && entries[k].obj == entries[l].obj ==>
         entries[k].kind == entries[l].kind)
  }

  /** The page's cards together with the modal (`#modal`, its title, its
      likes text and its media container) and `itemAtual`. */
  class Viewer {
    var current: Option<Entry>
    var active: bool
    var title: string
    var likesText: string
    var media: ModalMedia
    const cards: array<Card>
    ghost const entries: seq<Entry>

    /** The modal is shown exactly while an item is current, that item is one
        of the page's items, and the modal shows its title, medium and count. */
    ghost predicate Valid()
      reads this, if current.Some? then {current.value.obj} else {}
    {
      && cards.Length == |entries|
      && (active <==> current.Some?)
      && (current.Some? ==>
            && current.value in entries
            && title == TitleOf(current.value)
            && !media.NoMedia? && media.src == MediaPath(current.value.kind, current.value.obj.filename)
            && likesText == Show(current.value.obj.likes))
    }

    /** Every card's badge shows its item's current count. */
    ghost predicate Synced()
      reads this, cards, set k | 0 <= k < |entries| :: entries[k].obj
    {
      cards.Length == |entries| && forall k :: 0 <= k < cards.Length ==> cards[k] == CardOf(entries[k])
    }

    /** While the badges are in step, the modal's count and the shown item's
        own card show the same text. */
    lemma ShownAgrees(k: nat)
      requires Valid() && Synced() && k < |entries| && current == Some(entries[k])
      ensures cards[k].likesText == likesText
    {
    }

    /** Rendering the page: one card per item, in document order, and the
        modal closed. */
    constructor (es: seq<Entry>)
      ensures entries == es && fresh(cards)
      ensures current == None && !active && media == NoMedia && title == "" && likesText == ""
      ensures Valid() && Synced()
    {
      var a := new Card[|es|];
      var i := 0;
      while i < |es|
        invariant 0 <= i <= |es|
        invariant forall k :: 0 <= k < i ==> a[k] == CardOf(es[k])
      {
        a[i] := CardOf(es[i]);
        i := i + 1;
      }
      cards := a;
      entries := es;
      current := None;
      active := false;
      media := NoMedia;
      title := "";
      likesText := "";
    }

    /** `abreModalVideo`: the player replaces whatever the modal held and
        starts from the beginning, and the video becomes current. */
    method OpenVideo(v: MediaItem)
      requires Valid() && Entry(Video, v) in entries
      modifies this
      ensures current == Some(Entry(Video, v)) && active
      ensures media == Player("videos/" + v.filename, false, 0)
      ensures title == "Vídeo: " + v.timestamp && likesText == Show(v.likes)
      ensures Valid()
    {
      media := Player(MediaPath(Video, v.filename), false, 0);
      title := "Vídeo: " + v.timestamp;
      likesText := Show(v.likes);
      current := Some(Entry(Video, v));
      active := true;
    }

    /** `abreModalFoto`: the image replaces whatever the modal held, and the
        photo becomes current. */
    method OpenPhoto(f: MediaItem)
      requires Valid() && Entry(Photo, f) in entries
      modifies this
      ensures current == Some(Entry(Photo, f)) && active
      ensures media == Picture("img/" + f.filename, "Foto " + f.filename)
      ensures title == f.timestamp && likesText == Show(f.likes)
      ensures Valid()
    {
      media := Picture(MediaPath(Photo, f.filename), "Foto " + f.filename);
      title := f.timestamp;
      likesText := Show(f.likes);
      current := Some(Entry(Photo, f));
      active := true;
    }

    /** `fecharModal`: a video in the modal is paused and rewound, the modal
        is hidden and no item is current. The heading and count keep their
        last text. */
    method Close()
      requires Valid()
      modifies this
      ensures current == None && !active
      ensures media == if old(media).Player? then Player(old(media).src, true, 0) else old(media)
      ensures title == old(title) && likesText == old(likesText)
      ensures Valid()
    {
      if media.Player? {
        media := Player(media.src, true, 0);
      }
      active := false;
      current := None;
    }

    /** The like handler's `forEach` over the cards: every card that holds
        the medium of the given kind and file name gets the new badge text;
        every other card is left as it was. */
    method RefreshBadges(kind: Kind, filename: string, text: string)
      modifies cards
      ensures forall k :: 0 <= k < cards.Length ==>
        cards[k] == if Matches(old(cards[k]), kind, filename) then old(cards[k]).(likesText := text) else old(cards[k])
    {
      var i := 0;
      while i < cards.Length
        invariant 0 <= i <= cards.Length
        invariant forall k :: 0 <= k < i ==>
          cards[k] == if Matches(old(cards[k]), kind, filename) then old(cards[k]).(likesText := text) else old(cards[k])
        invariant forall k :: i <= k < cards.Length ==> cards[k] == old(cards[k])
      {
        if Matches(cards[i], kind, filename) {
          cards[i] := cards[i].(likesText := text);
        }
        i := i + 1;
      }
    }

    /** The like button. With no current item nothing happens. Otherwise the
        item's count goes up by one, the modal shows the new count, and every
        card that holds the item's medium shows it too; no other card changes.
        When file names pick out single items, every badge stays in step with
        its item. */
    method Like()
      requires Valid()
      modifies this, cards, if current.Some? then {current.value.obj} else {}
      ensures current == old(current) && active == old(active)
      ensures title == old(title) && media == old(media)
      ensures current.None? ==> likesText == old(likesText) && cards[..] == old(cards[..])
      ensures current.Some? ==>
        && current.value.obj.likes == old(current.value.obj.likes) + 1
        && likesText == Show(current.value.obj.likes)
        && forall k :: 0 <= k < cards.Length ==>
             cards[k] == if Matches(old(cards[k]), current.value.kind, current.value.obj.filename)
                         then old(cards[k]).(likesText := Show(current.value.obj.likes))
                         else old(cards[k])
      ensures Valid()
      ensures UniqueFiles(entries) && old(Synced()) ==> Synced()
    {
      if current.None? {
        return;
      }
      var e := current.value;
      e.obj.likes := e.obj.likes + 1;
      likesText := Show(e.obj.likes);
      assert Valid();
      RefreshBadges(e.kind, e.obj.filename, likesText);
      if UniqueFiles(entries) && old(Synced()) {
        forall k | 0 <= k < cards.Length ensures cards[k] == CardOf(entries[k]) {
          CardMatches(entries[k], e.kind, e.obj.filename);
        }
      }
    }
  }
}
