/**
 The owner and group columns: numeric ids resolved to names through the
 system's user and group database, falling back to fixed labels.
 */
module Identity {
  import opened Basics

  const UnknownUser: string := "Unknown user"
  const UnknownGroup: string := "Unknown group"

  /**
   The outcome of looking an id up in the user or group database:
   `None` when the id is not there, `Some(None)` when it is there but
   its name is not valid UTF-8, `Some(Some(name))` otherwise.
   */
  type Lookup = Option<Option<string>>

  /** The displayed name for a lookup, or `fallback` when no usable name was found. */
  function NameOr(lookup: Lookup, fallback: string): string {
    match lookup
    case Some(Some(name)) => name
    case _ => fallback
  }

  /**
   `get_owner_and_group_names`, with the two database lookups passed in.
   It never fails: a missing id or a name that is not valid UTF-8 shows
   as the fallback label of its column, and the two columns are
   resolved independently.
   */
  function OwnerAndGroupNames(user: Lookup, group: Lookup): (r: Result<(string, string), string>)
    ensures r.Ok?
    ensures user.Some? && user.value.Some? ==> r.value.0 == user.value.value
    ensures user.None? || user.value.None? ==> r.value.0 == UnknownUser
    ensures group.Some? && group.value.Some? ==> r.value.1 == group.value.value
    ensures group.None? || group.value.None? ==> r.value.1 == UnknownGroup
  {
    Ok((NameOr(user, UnknownUser), NameOr(group, UnknownGroup)))
  }
}
