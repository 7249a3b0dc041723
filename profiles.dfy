/**
 * `UserProfile`: the `user_profiles` table keyed by user id, holding an
 * optional avatar path and an optional bio. An update writes only the
 * fields it is given, and the avatar URL a page shows is the stored URL,
 * a local upload route, or the default picture.
 */
module Profiles {
  import opened Wrappers
  import opened Text

  /** A row of `user_profiles`; NULL columns are None. */
  datatype Profile = Profile(avatarPath: Option<string>, bio: Option<string>, updatedAt: int)

  const DefaultAvatar := "/static/img/default-avatar.png"
  const ProfileUploads := "/uploads/profile/"

  /** Python truthiness of a nullable text column. */
  predicate Present(v: Option<string>)
  {
    v.Some? && v.value != ""
  }

  /** `get_avatar_url` on the fetched row. */
  function AvatarUrlOf(row: Option<Profile>, default: string): (url: string)
    ensures !(row.Some? && Present(row.value.avatarPath)) ==> url == default
    ensures row.Some? && Present(row.value.avatarPath) && StartsWith(row.value.avatarPath.value, "http") ==>
      url == row.value.avatarPath.value
    ensures row.Some? && Present(row.value.avatarPath) && !StartsWith(row.value.avatarPath.value, "http") ==>
      url == ProfileUploads + row.value.avatarPath.value
  {
    if row.Some? && Present(row.value.avatarPath) then
      var avatar := row.value.avatarPath.value;
      if StartsWith(avatar, "http") then avatar else ProfileUploads + avatar
    else default
  }

  /** `get_bio` on the fetched row: the bio, or '' for a missing row or a NULL or empty bio. */
  function BioOf(row: Option<Profile>): (bio: string)
    ensures row.Some? && row.value.bio.Some? ==> bio == row.value.bio.value
    ensures row.None? || row.value.bio.None? ==> bio == ""
  {
    if row.Some? && Present(row.value.bio) then row.value.bio.value else ""
  }

  /** A stored avatar always shows: an external URL as it is, a file name below the upload route; never the default. */
  lemma AvatarUrlShowsStoredAvatar(p: Profile, default: string)
    requires Present(p.avatarPath) && !StartsWith(default, ProfileUploads) && !StartsWith(default, "http")
    ensures AvatarUrlOf(Some(p), default) != default
    ensures StartsWith(AvatarUrlOf(Some(p), default), "http") || StartsWith(AvatarUrlOf(Some(p), default), ProfileUploads)
    ensures EndsWith(AvatarUrlOf(Some(p), default), p.avatarPath.value)
  {
    var a := p.avatarPath.value;
    var url := AvatarUrlOf(Some(p), default);
    if !StartsWith(a, "http") {
      assert url == ProfileUploads + a;
      assert url[..|ProfileUploads|] == ProfileUploads;
      assert url[|url| - |a|..] == a;
    }
  }

  /** The rows of `user_profiles`, held by the object that runs the queries. */
  class ProfileTable {
    var rows: map<int, Profile>

    constructor()
      ensures rows == map[]
    {
      rows := map[];
    }

    function Row(userId: int): Option<Profile>
      reads this
    {
      if userId in rows then Some(rows[userId]) else None
    }

    /** `get_avatar_url`. */
    function AvatarUrl(userId: int, default: string): string
      reads this
    {
      AvatarUrlOf(Row(userId), default)
    }

    /** `get_bio`. */
    function GetBio(userId: int): string
      reads this
    {
      BioOf(Row(userId))
    }

    /**
     * `update_profile`. A user without a profile gets one with the values
     * given, NULL for the others. For an existing profile only the fields
     * given are written, with the timestamp; with none given nothing changes.
     * Every other user's profile stays as it was.
     */
    method UpdateProfile(userId: int, avatar: Option<string>, bio: Option<string>, now: int)
      modifies this
      ensures rows.Keys == old(rows).Keys + {userId}
      ensures forall id :: id in old(rows) && id != userId ==> rows[id] == old(rows)[id]
      ensures userId !in old(rows) ==> rows[userId] == Profile(avatar, bio, now)
      ensures userId in old(rows) && avatar.None? && bio.None? ==> rows == old(rows)
      ensures userId in old(rows) ==>
        rows[userId].avatarPath == (if avatar.Some? then avatar else old(rows)[userId].avatarPath) &&
        rows[userId].bio == (if bio.Some? then bio else old(rows)[userId].bio) &&
        rows[userId].updatedAt == (if avatar.Some? || bio.Some? then now else old(rows)[userId].updatedAt)
      ensures bio.Some? ==> GetBio(userId) == bio.value
      ensures forall d :: avatar.Some? ==> AvatarUrl(userId, d) == AvatarUrlOf(Some(Profile(avatar, None, now)), d)
    {
      if userId !in rows {
        rows := rows[userId := Profile(avatar, bio, now)];
      } else {
        var p := rows[userId];
        if avatar.Some? && bio.Some? {
          rows := rows[userId := p.(avatarPath := avatar, bio := bio, updatedAt := now)];
        } else if avatar.Some? {
          rows := rows[userId := p.(avatarPath := avatar, updatedAt := now)];
        } else if bio.Some? {
          rows := rows[userId := p.(bio := bio, updatedAt := now)];
        }
      }
    }
  }
}
