/** The database layer's mapping from stored rows to roster entries: `mapProfileToClassmate`
    and the badge and sticker lookup tables behind it. The queries themselves are left out. */
module SupabaseData {
  import opened Wrappers
  import opened Classmates
  import opened Records

  /** A `profiles` row; nullable columns are `Option`s. Timestamps are not used by the mapping. */
  datatype DbProfile = DbProfile(
    id: string,
    fullName: string,
    nickname: string,
    photoUrl: Option<string>,
    birthday: Option<string>,
    zodiac: Option<string>,
    mbti: Option<string>,
    favoriteDrink: Option<string>,
    instagramHandle: Option<string>,
    playerNumber: int)

  /** A `user_badges` row. */
  datatype DbBadge = DbBadge(id: string, userId: string, badgeId: string, unlockedAt: string)

  /** A `stickers` row; the sender is null for an anonymous sticker. */
  datatype DbSticker = DbSticker(id: string, receiverId: string, senderId: Option<string>, stickerId: string, createdAt: string)

  // ---------------------------------------------------------------------------
  // JavaScript `||` on nullable strings

  /** `a || b`: `a` when it is a non-empty string, otherwise `b` (null and "" are falsy). */
  function OrElse(a: Option<string>, b: string): (r: string)
    ensures a.Some? && a.value != "" ==> r == a.value
    ensures a.None? || a.value == "" ==> r == b
  {
    if a.Some? && a.value != "" then a.value else b
  }

  /** `a || undefined`: present exactly when `a` is a non-empty string. */
  function Truthy(a: Option<string>): (r: Option<string>)
    ensures r.Some? <==> a.Some? && a.value != ""
    ensures r.Some? ==> r == a
  {
    if a.Some? && a.value != "" then a else None
  }

  // ---------------------------------------------------------------------------
  // Lookup tables

  /** `t[key] || fallback`: the stored value when the key is listed with a non-empty value,
      the fallback when the key is not listed. */
  function LookupOr(t: Table, key: string, fallback: string): (r: string)
    ensures key !in Keys(t) ==> r == fallback
    ensures Lookup(t, key).Some? && Lookup(t, key).value != "" ==> r == Lookup(t, key).value
  {
    OrElse(Lookup(t, key), fallback)
  }

  const BadgeNames: Table := [
    ("star", "Star Player"), ("creative", "Creative Soul"), ("chill", "Chill Vibes"),
    ("gamer", "Gamer Pro"), ("social", "Social Butterfly"), ("foodie", "Foodie"),
    ("music", "Music Lover"), ("smart", "Big Brain")
  ]

  const BadgeIcons: Table := [
    ("star", "\U{2B50}"), ("creative", "\U{1F3A8}"), ("chill", "\U{1F60E}"),
    ("gamer", "\U{1F3AE}"), ("social", "\U{1F98B}"), ("foodie", "\U{1F354}"),
    ("music", "\U{1F3B5}"), ("smart", "\U{1F9E0}")
  ]

  const BadgeColors: Table := [
    ("star", "#ffd700"), ("creative", "#ff8888"), ("chill", "#88d8ff"),
    ("gamer", "#b088ff"), ("social", "#88ffb8"), ("foodie", "#ffb888"),
    ("music", "#ff88d8"), ("smart", "#88ffd8")
  ]

  const StickerEmojis: Table := [
    ("1", "\U{1F496}"), ("2", "\U{2B50}"), ("3", "\U{1F389}"), ("4", "\U{1F3AE}"),
    ("5", "\U{1F31F}"), ("6", "\U{1F4AB}"), ("7", "\U{1F525}"), ("8", "\U{2728}"),
    ("9", "\U{1F431}"), ("10", "\U{1F98B}"), ("11", "\U{1F308}"), ("12", "\U{1F340}")
  ]

  const StickerNames: Table := [
    ("1", "Love"), ("2", "Star"), ("3", "Party"), ("4", "Game"),
    ("5", "Sparkle"), ("6", "Magic"), ("7", "Fire"), ("8", "Shine"),
    ("9", "Cat"), ("10", "Butterfly"), ("11", "Rainbow"), ("12", "Lucky")
  ]

  /** The trophy shown for a badge id no table knows. */
  const DefaultBadgeIcon: string := "\U{1F3C6}"
  const DefaultBadgeColor: string := "#888888"
  /** The question mark shown for a sticker id no table knows. */
  const DefaultStickerEmoji: string := "\U{2753}"
  const DefaultStickerName: string := "Sticker"

  /** `getBadgeName`: the listed name, or the id itself for an unknown badge. */
  function BadgeName(badgeId: string): (r: string)
    ensures badgeId !in Keys(BadgeNames) ==> r == badgeId
    ensures Lookup(BadgeNames, badgeId).Some? && Lookup(BadgeNames, badgeId).value != "" ==> r == Lookup(BadgeNames, badgeId).value
  {
    LookupOr(BadgeNames, badgeId, badgeId)
  }

  /** `getBadgeIcon`: the listed icon, or the trophy for an unknown badge. */
  function BadgeIcon(badgeId: string): (r: string)
    ensures badgeId !in Keys(BadgeIcons) ==> r == DefaultBadgeIcon
    ensures Lookup(BadgeIcons, badgeId).Some? && Lookup(BadgeIcons, badgeId).value != "" ==> r == Lookup(BadgeIcons, badgeId).value
  {
    LookupOr(BadgeIcons, badgeId, DefaultBadgeIcon)
  }

  /** `getBadgeColor`: the listed colour, or grey for an unknown badge. */
  function BadgeColor(badgeId: string): (r: string)
    ensures badgeId !in Keys(BadgeColors) ==> r == DefaultBadgeColor
    ensures Lookup(BadgeColors, badgeId).Some? && Lookup(BadgeColors, badgeId).value != "" ==> r == Lookup(BadgeColors, badgeId).value
  {
    LookupOr(BadgeColors, badgeId, DefaultBadgeColor)
  }

  /** `getStickerEmoji`: the listed emoji, or the question mark for an unknown sticker. */
  function StickerEmoji(stickerId: string): (r: string)
    ensures stickerId !in Keys(StickerEmojis) ==> r == DefaultStickerEmoji
    ensures Lookup(StickerEmojis, stickerId).Some? && Lookup(StickerEmojis, stickerId).value != "" ==> r == Lookup(StickerEmojis, stickerId).value
  {
    LookupOr(StickerEmojis, stickerId, DefaultStickerEmoji)
  }

  /** `getStickerName`: the listed name, or "Sticker" for an unknown sticker. */
  function StickerName(stickerId: string): (r: string)
    ensures stickerId !in Keys(StickerNames) ==> r == DefaultStickerName
    ensures Lookup(StickerNames, stickerId).Some? && Lookup(StickerNames, stickerId).value != "" ==> r == Lookup(StickerNames, stickerId).value
  {
    LookupOr(StickerNames, stickerId, DefaultStickerName)
  }

  // ---------------------------------------------------------------------------
  // Mapping rows to roster entries

  /** A stored badge as shown on the roster: looked up by its badge id and always unlocked. */
  function MapBadge(b: DbBadge): (r: Badge)
    ensures r.id == b.badgeId && r.unlocked
    ensures r.name == BadgeName(b.badgeId) && r.icon == BadgeIcon(b.badgeId) && r.color == BadgeColor(b.badgeId)
  {
    Badge(b.badgeId, BadgeName(b.badgeId), BadgeIcon(b.badgeId), BadgeColor(b.badgeId), true)
  }

  /** A stored sticker as shown on the roster: the row's id, the looked-up emoji and name,
      and "User" as sender exactly when the sender id is a non-empty string. */
  function MapSticker(s: DbSticker): (r: Sticker)
    ensures r.id == s.id && r.emoji == StickerEmoji(s.stickerId) && r.name == StickerName(s.stickerId)
    ensures r.from.Some? <==> s.senderId.Some? && s.senderId.value != ""
    ensures r.from.Some? ==> r.from == Some("User")
  {
    Sticker(s.id, StickerEmoji(s.stickerId), StickerName(s.stickerId),
            if Truthy(s.senderId).Some? then Some("User") else None)
  }

  /** `mapProfileToClassmate`. Columns are copied; null or empty photo and birthday become "",
      and null or empty zodiac, MBTI and drink fall back to Aries, INTJ and Water; the Instagram
      handle is kept only when non-empty. Badges and stickers are mapped one for one, in order. */
  function MapProfileToClassmate(p: DbProfile, badges: seq<DbBadge>, stickers: seq<DbSticker>): (c: Classmate)
    ensures c.id == p.id && c.fullName == p.fullName && c.nickname == p.nickname
    ensures c.playerNumber == p.playerNumber
    ensures c.photo == (if p.photoUrl.Some? then p.photoUrl.value else "")
    ensures c.birthday == Some(if p.birthday.Some? then p.birthday.value else "")
    ensures c.zodiac.Some? && c.mbti.Some? && c.favoriteDrink.Some?
    ensures p.zodiac.Some? && p.zodiac.value != "" ==> c.zodiac == p.zodiac
    ensures p.zodiac.None? || p.zodiac.value == "" ==> c.zodiac == Some("Aries")
    ensures p.mbti.Some? && p.mbti.value != "" ==> c.mbti == p.mbti
    ensures p.mbti.None? || p.mbti.value == "" ==> c.mbti == Some("INTJ")
    ensures p.favoriteDrink.Some? && p.favoriteDrink.value != "" ==> c.favoriteDrink == p.favoriteDrink
    ensures p.favoriteDrink.None? || p.favoriteDrink.value == "" ==> c.favoriteDrink == Some("Water")
    ensures c.instagram.Some? <==> p.instagramHandle.Some? && p.instagramHandle.value != ""
    ensures c.instagram.Some? ==> c.instagram == p.instagramHandle
    ensures |c.badges| == |badges|
    ensures forall i :: 0 <= i < |badges| ==> c.badges[i] == MapBadge(badges[i])
    ensures forall i :: 0 <= i < |badges| ==> c.badges[i].id == badges[i].badgeId && c.badges[i].unlocked
    ensures |c.stickersReceived| == |stickers|
    ensures forall i :: 0 <= i < |stickers| ==> c.stickersReceived[i] == MapSticker(stickers[i])
    ensures forall i :: 0 <= i < |stickers| ==>
              && c.stickersReceived[i].id == stickers[i].id
              && (c.stickersReceived[i].from.Some? <==> stickers[i].senderId.Some? && stickers[i].senderId.value != "")
  {
    Classmate(
      p.id, p.fullName, p.nickname,
      OrElse(p.photoUrl, ""),
      Some(OrElse(p.birthday, "")),
      Some(OrElse(p.zodiac, "Aries")),
      Some(OrElse(p.mbti, "INTJ")),
      Some(OrElse(p.favoriteDrink, "Water")),
      Truthy(p.instagramHandle),
      seq(|badges|, i requires 0 <= i < |badges| => MapBadge(badges[i])),
      seq(|stickers|, i requires 0 <= i < |stickers| => MapSticker(stickers[i])),
      p.playerNumber)
  }

  // ---------------------------------------------------------------------------
  // The tables agree with the roster's catalogues

  lemma BadgeTablesUnique()
    ensures UniqueKeys(BadgeNames) && UniqueKeys(BadgeIcons) && UniqueKeys(BadgeColors)
  {
  }

  lemma StickerTablesUnique()
    ensures UniqueKeys(StickerEmojis) && UniqueKeys(StickerNames)
  {
  }

  /** Entry by entry, the three badge tables list the catalogue's ids with its names, icons and colours. */
  lemma BadgeTablesFollowCatalogue()
    ensures |BadgeNames| == |BadgeIcons| == |BadgeColors| == |AllBadges|
    ensures forall i :: 0 <= i < |AllBadges| ==>
              && BadgeNames[i] == (AllBadges[i].id, AllBadges[i].name)
              && BadgeIcons[i] == (AllBadges[i].id, AllBadges[i].icon)
              && BadgeColors[i] == (AllBadges[i].id, AllBadges[i].color)
              && AllBadges[i].name != "" && AllBadges[i].icon != "" && AllBadges[i].color != ""
  {
  }

  /** Entry by entry, the two sticker tables list the options' ids with their emoji and names. */
  lemma StickerTablesFollowOptions()
    ensures |StickerEmojis| == |StickerNames| == |StickerOptions|
    ensures forall i :: 0 <= i < |StickerOptions| ==>
              && StickerEmojis[i] == (StickerOptions[i].id, StickerOptions[i].emoji)
              && StickerNames[i] == (StickerOptions[i].id, StickerOptions[i].name)
              && StickerOptions[i].emoji != "" && StickerOptions[i].name != ""
  {
  }

  /** Mapping a stored badge whose id is in the roster's catalogue gives that catalogue badge,
      unlocked: the database tables and the roster page agree on every name, icon and colour. */
  lemma MapBadgeMatchesCatalogue(i: nat, row: DbBadge)
    requires i < |AllBadges| && row.badgeId == AllBadges[i].id
    ensures MapBadge(row) == AllBadges[i].(unlocked := true)
  {
    BadgeTablesUnique();
    BadgeTablesFollowCatalogue();
    var b := AllBadges[i];
    LookupEntry(BadgeNames, i);
    LookupEntry(BadgeIcons, i);
    LookupEntry(BadgeColors, i);
    assert BadgeName(b.id) == b.name;
    assert BadgeIcon(b.id) == b.icon;
    assert BadgeColor(b.id) == b.color;
  }

  /** Mapping a stored sticker whose id is one of the roster's twelve gives that option's
      emoji and name. */
  lemma MapStickerMatchesOptions(i: nat, row: DbSticker)
    requires i < |StickerOptions| && row.stickerId == StickerOptions[i].id
    ensures MapSticker(row).emoji == StickerOptions[i].emoji
    ensures MapSticker(row).name == StickerOptions[i].name
  {
    StickerTablesUnique();
    StickerTablesFollowOptions();
    var o := StickerOptions[i];
    LookupEntry(StickerEmojis, i);
    LookupEntry(StickerNames, i);
    assert StickerEmoji(o.id) == o.emoji;
    assert StickerName(o.id) == o.name;
  }

  /** A badge id no table knows is shown under its own id, with the trophy and grey. */
  lemma UnknownBadge(row: DbBadge)
    requires row.badgeId !in Keys(BadgeNames)
    ensures MapBadge(row) == Badge(row.badgeId, row.badgeId, DefaultBadgeIcon, DefaultBadgeColor, true)
  {
    assert Keys(BadgeIcons) == Keys(BadgeNames) && Keys(BadgeColors) == Keys(BadgeNames) by {
      assert forall i :: 0 <= i < |BadgeNames| ==> BadgeIcons[i].0 == BadgeNames[i].0 && BadgeColors[i].0 == BadgeNames[i].0;
    }
  }

  /** A sticker id no table knows is shown as a question mark named "Sticker". */
  lemma UnknownSticker(row: DbSticker)
    requires row.stickerId !in Keys(StickerNames)
    ensures MapSticker(row).emoji == DefaultStickerEmoji && MapSticker(row).name == DefaultStickerName
  {
    assert Keys(StickerEmojis) == Keys(StickerNames) by {
      assert forall i :: 0 <= i < |StickerNames| ==> StickerEmojis[i].0 == StickerNames[i].0;
    }
  }
}
