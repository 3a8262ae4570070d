/** The Classmates roster page: searching and the BFF filter, bookmarking BFFs,
    sending stickers, unlocking badges and joining the roster with a profile form.
    Each handler is a pure transition on the page's state; toasts and modals are left out. */
module Classmates {
  import opened Wrappers
  import opened Text
  import opened Seqs

  datatype Badge = Badge(id: string, name: string, icon: string, color: string, unlocked: bool)

  datatype Sticker = Sticker(id: string, emoji: string, name: string, from: Option<string>)

  /** A roster entry. `birthday`, `zodiac`, `mbti` and `favoriteDrink` come from the
      database mapping; a profile made with the roster's form leaves them undefined. */
  datatype Classmate = Classmate(
    id: string,
    fullName: string,
    nickname: string,
    photo: string,
    birthday: Option<string>,
    zodiac: Option<string>,
    mbti: Option<string>,
    favoriteDrink: Option<string>,
    instagram: Option<string>,
    badges: seq<Badge>,
    stickersReceived: seq<Sticker>,
    playerNumber: int)

  /** The badges a player can unlock for someone. */
  const AllBadges: seq<Badge> := [
    Badge("star", "Star Player", "\U{2B50}", "#ffd700", false),
    Badge("creative", "Creative Soul", "\U{1F3A8}", "#ff8888", false),
    Badge("chill", "Chill Vibes", "\U{1F60E}", "#88d8ff", false),
    Badge("gamer", "Gamer Pro", "\U{1F3AE}", "#b088ff", false),
    Badge("social", "Social Butterfly", "\U{1F98B}", "#88ffb8", false),
    Badge("foodie", "Foodie", "\U{1F354}", "#ffb888", false),
    Badge("music", "Music Lover", "\U{1F3B5}", "#ff88d8", false),
    Badge("smart", "Big Brain", "\U{1F9E0}", "#88ffd8", false)
  ]

  /** The stickers a player can send. */
  const StickerOptions: seq<Sticker> := [
    Sticker("1", "\U{1F496}", "Love", None),
    Sticker("2", "\U{2B50}", "Star", None),
    Sticker("3", "\U{1F389}", "Party", None),
    Sticker("4", "\U{1F3AE}", "Game", None),
    Sticker("5", "\U{1F31F}", "Sparkle", None),
    Sticker("6", "\U{1F4AB}", "Magic", None),
    Sticker("7", "\U{1F525}", "Fire", None),
    Sticker("8", "\U{2728}", "Shine", None),
    Sticker("9", "\U{1F431}", "Cat", None),
    Sticker("10", "\U{1F98B}", "Butterfly", None),
    Sticker("11", "\U{1F308}", "Rainbow", None),
    Sticker("12", "\U{1F340}", "Lucky", None)
  ]

  /** The roster's single seeded entry. */
  const InitialClassmates: seq<Classmate> := [
    Classmate("1", "Zamira Nasywa U", "Nanas", "/photos/nanas.jpeg", None, None, None, None, Some("@nasyviie"),
      [AllBadges[4].(unlocked := true), AllBadges[1].(unlocked := true)],
      [Sticker("1", "\U{1F496}", "Love", Some("Someone")), Sticker("5", "\U{1F31F}", "Sparkle", Some("A friend"))],
      1)
  ]

  // ---------------------------------------------------------------------------
  // Search and BFF filter

  /** `query` occurs in the full name or the nickname, ignoring case. */
  predicate MatchesSearch(c: Classmate, query: string)
  {
    Contains(ToLower(c.fullName), ToLower(query)) || Contains(ToLower(c.nickname), ToLower(query))
  }

  /** With the BFF switch on, only bookmarked ids pass. */
  predicate MatchesBff(c: Classmate, bffs: set<string>, bffsOnly: bool)
  {
    !bffsOnly || c.id in bffs
  }

  /** `filteredClassmates`: the roster entries that pass the search and the BFF switch, in roster order. */
  function FilteredClassmates(cs: seq<Classmate>, bffs: set<string>, query: string, bffsOnly: bool): (r: seq<Classmate>)
    ensures IsSubsequence(r, cs)
    ensures forall c :: c in r <==> c in cs && MatchesSearch(c, query) && MatchesBff(c, bffs, bffsOnly)
    ensures bffsOnly ==> forall k :: 0 <= k < |r| ==> r[k].id in bffs
    ensures forall k :: 0 <= k < |r| ==>
              Occurs(ToLower(r[k].fullName), ToLower(query)) || Occurs(ToLower(r[k].nickname), ToLower(query))
  {
    var r := Filter((c: Classmate) => MatchesSearch(c, query) && MatchesBff(c, bffs, bffsOnly), cs);
    assert forall k :: 0 <= k < |r| ==> MatchesSearch(r[k], query);
    r
  }

  /** With the switch off and an empty search box, every classmate is shown, in order. */
  lemma EmptySearchShowsAll(cs: seq<Classmate>, bffs: set<string>)
    ensures FilteredClassmates(cs, bffs, "", false) == cs
  {
    forall k | 0 <= k < |cs| ensures MatchesSearch(cs[k], "") {
      ContainsEmpty(ToLower(cs[k].fullName));
    }
    FilterKeepsAll((c: Classmate) => MatchesSearch(c, "") && MatchesBff(c, bffs, false), cs);
  }

  // ---------------------------------------------------------------------------
  // Page state and handlers

  datatype ProfileForm = ProfileForm(fullName: string, nickname: string, instagram: string)

  const EmptyForm: ProfileForm := ProfileForm("", "", "")

  /** The state the handlers read and write: the roster, the bookmarked ids, the player whose
      card is open (a copy taken when it was opened), whether this user has joined, the
      profile form and the uploaded photo preview. */
  datatype Page = Page(
    classmates: seq<Classmate>,
    bffs: set<string>,
    selected: Option<Classmate>,
    hasProfile: bool,
    form: ProfileForm,
    previewPhoto: Option<string>)

  /** `toggleBff`: `id` is bookmarked afterwards exactly when it was not before; nothing else changes. */
  function ToggleBff(bffs: set<string>, id: string): (r: set<string>)
    ensures id in r <==> id !in bffs
    ensures forall x :: x != id ==> (x in r <==> x in bffs)
  {
    if id in bffs then bffs - {id} else bffs + {id}
  }

  /** Toggling the same id twice restores the bookmarks. */
  lemma ToggleTwice(bffs: set<string>, id: string)
    ensures ToggleBff(ToggleBff(bffs, id), id) == bffs
  {
  }

  /** `c` with `s` appended to the stickers it has received. */
  function WithSticker(c: Classmate, s: Sticker): Classmate
  {
    c.(stickersReceived := c.stickersReceived + [s])
  }

  /** `c` with `b` appended to its badges. */
  function WithBadge(c: Classmate, b: Badge): Classmate
  {
    c.(badges := c.badges + [b])
  }

  /** `sendSticker`: with a card open, every roster entry with that player's id, and the open
      card itself, receives one copy of the sticker signed "You"; the rest of the roster is
      unchanged. With no card open nothing happens. */
  function SendSticker(p: Page, s: Sticker): (r: Page)
    ensures p.selected.None? ==> r == p
    ensures p.selected.Some? ==>
              && |r.classmates| == |p.classmates|
              && r.bffs == p.bffs && r.hasProfile == p.hasProfile
              && r.form == p.form && r.previewPhoto == p.previewPhoto
              && r.selected == Some(WithSticker(p.selected.value, s.(from := Some("You"))))
              && forall k :: 0 <= k < |p.classmates| ==>
                   r.classmates[k] ==
                     if p.classmates[k].id == p.selected.value.id
                     then WithSticker(p.classmates[k], s.(from := Some("You")))
                     else p.classmates[k]
  {
    match p.selected
    case None => p
    case Some(sel) =>
      var sent := s.(from := Some("You"));
      p.(classmates := seq(|p.classmates|, k requires 0 <= k < |p.classmates| =>
                             if p.classmates[k].id == sel.id then WithSticker(p.classmates[k], sent) else p.classmates[k]),
         selected := Some(WithSticker(sel, sent)))
  }

  /** The open card already shows a badge with `id`. */
  predicate HasBadge(c: Classmate, id: string)
  {
    exists k :: 0 <= k < |c.badges| && c.badges[k].id == id
  }

  /** `unlockBadge`: with a card open whose player lacks the badge, every roster entry with that
      player's id, and the open card, get one unlocked copy of it; otherwise nothing happens. */
  function UnlockBadge(p: Page, b: Badge): (r: Page)
    ensures p.selected.None? || HasBadge(p.selected.value, b.id) ==> r == p
    ensures p.selected.Some? && !HasBadge(p.selected.value, b.id) ==>
              && |r.classmates| == |p.classmates|
              && r.bffs == p.bffs && r.hasProfile == p.hasProfile
              && r.form == p.form && r.previewPhoto == p.previewPhoto
              && r.selected == Some(WithBadge(p.selected.value, b.(unlocked := true)))
              && forall k :: 0 <= k < |p.classmates| ==>
                   r.classmates[k] ==
                     if p.classmates[k].id == p.selected.value.id
                     then WithBadge(p.classmates[k], b.(unlocked := true))
                     else p.classmates[k]
  {
    match p.selected
    case None => p
    case Some(sel) =>
      if exists k :: 0 <= k < |sel.badges| && sel.badges[k].id == b.id then p
      else
        var unlocked := b.(unlocked := true);
        p.(classmates := seq(|p.classmates|, k requires 0 <= k < |p.classmates| =>
                               if p.classmates[k].id == sel.id then WithBadge(p.classmates[k], unlocked) else p.classmates[k]),
           selected := Some(WithBadge(sel, unlocked)))
  }

  /** No two of a player's badges share an id. */
  ghost predicate UniqueBadgeIds(c: Classmate)
  {
    forall i, j :: 0 <= i < j < |c.badges| ==> c.badges[i].id != c.badges[j].id
  }

  /** The open card is a faithful copy of every roster entry with its id. */
  ghost predicate InSync(p: Page)
  {
    p.selected.Some? ==>
      forall k :: 0 <= k < |p.classmates| && p.classmates[k].id == p.selected.value.id ==>
        p.classmates[k] == p.selected.value
  }

  /** Every player's badge ids are distinct, on the roster and on the open card. */
  ghost predicate BadgesUnique(p: Page)
  {
    && (forall k :: 0 <= k < |p.classmates| ==> UniqueBadgeIds(p.classmates[k]))
    && (p.selected.Some? ==> UniqueBadgeIds(p.selected.value))
  }

  lemma WithNewBadgeUnique(c: Classmate, b: Badge)
    requires UniqueBadgeIds(c) && !HasBadge(c, b.id)
    ensures UniqueBadgeIds(WithBadge(c, b))
  {
    var c' := WithBadge(c, b);
    forall i, j | 0 <= i < j < |c'.badges| ensures c'.badges[i].id != c'.badges[j].id {
      if j == |c.badges| {
        assert c'.badges[i] == c.badges[i];
      }
    }
  }

  /** Unlocking keeps the open card in step with the roster and keeps every player's badge ids
      distinct: the already-has check on the card is enough. */
  lemma UnlockKeepsBadgesUnique(p: Page, b: Badge)
    requires InSync(p) && BadgesUnique(p)
    ensures InSync(UnlockBadge(p, b)) && BadgesUnique(UnlockBadge(p, b))
  {
    if p.selected.Some? && !HasBadge(p.selected.value, b.id) {
      var sel := p.selected.value;
      var r := UnlockBadge(p, b);
      WithNewBadgeUnique(sel, b.(unlocked := true));
      forall k | 0 <= k < |r.classmates| ensures UniqueBadgeIds(r.classmates[k]) {
        if p.classmates[k].id == sel.id {
          assert p.classmates[k] == sel;
        }
      }
    }
  }

  /** Sending a sticker keeps the open card in step with the roster. */
  lemma SendKeepsInSync(p: Page, s: Sticker)
    requires InSync(p)
    ensures InSync(SendSticker(p, s))
  {
  }

  /** Opening a card from the roster, whose ids are distinct, puts the page in step. */
  lemma SelectInSync(p: Page, k: nat)
    requires k < |p.classmates|
    requires forall i, j :: 0 <= i < j < |p.classmates| ==> p.classmates[i].id != p.classmates[j].id
    ensures InSync(p.(selected := Some(p.classmates[k])))
  {
  }

  /** `handleSubmitProfile`. When the trimmed full name or nickname is empty the page is left
      alone. Otherwise a new player joins at the end of the roster: id from the clock, trimmed
      names, the preview photo, the trimmed handle (absent when empty), no badges or stickers,
      and the next player number; the form and the preview are cleared. */
  function SubmitProfile(p: Page, now: nat): (r: Page)
    ensures AllSpace(p.form.fullName) || AllSpace(p.form.nickname) ==> r == p
    ensures !AllSpace(p.form.fullName) && !AllSpace(p.form.nickname) ==>
              && |r.classmates| == |p.classmates| + 1
              && r.classmates[..|p.classmates|] == p.classmates
              && r.hasProfile && r.form == EmptyForm && r.previewPhoto.None?
              && r.bffs == p.bffs && r.selected == p.selected
  {
    var fullName := Trim(p.form.fullName);
    var nickname := Trim(p.form.nickname);
    if fullName == [] || nickname == [] then p
    else
      var handle := Trim(p.form.instagram);
      var player := Classmate(
        "user-" + Decimal(now), fullName, nickname, p.previewPhoto.GetOr(""),
        None, None, None, None,
        if handle == [] then None else Some(handle),
        [], [], |p.classmates| + 1);
      assert (p.classmates + [player])[..|p.classmates|] == p.classmates;
      p.(classmates := p.classmates + [player], hasProfile := true, form := EmptyForm, previewPhoto := None)
  }

  /** The player a successful submission adds: names trimmed (so non-empty, with no white space
      at either end), an empty handle becoming absent, nothing received yet, and the number
      one past the roster's previous length. */
  lemma SubmittedPlayer(p: Page, now: nat)
    requires !AllSpace(p.form.fullName) && !AllSpace(p.form.nickname)
    ensures var c := SubmitProfile(p, now).classmates[|p.classmates|];
      && c.fullName == Trim(p.form.fullName) && c.nickname == Trim(p.form.nickname)
      && c.fullName != [] && !IsJsSpace(c.fullName[0]) && !IsJsSpace(c.fullName[|c.fullName| - 1])
      && c.nickname != [] && !IsJsSpace(c.nickname[0]) && !IsJsSpace(c.nickname[|c.nickname| - 1])
      && (c.instagram.None? <==> AllSpace(p.form.instagram))
      && (c.instagram.Some? ==> c.instagram.value == Trim(p.form.instagram))
      && c.badges == [] && c.stickersReceived == []
      && c.playerNumber == |p.classmates| + 1
      && c.id == "user-" + Decimal(now)
  {
  }
}
