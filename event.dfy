/** The event record of models/Event.kt, with the two bookkeeping columns
    (isFromCache, lastSyncTimestamp) that the repository copies into it. */
module Models {

  /** A nullable value: Kotlin's `T?`, SQL's NULL. */
  datatype Option<+T> = None | Some(value: T)

  /** One row of the events table. `id` is None until a key is assigned;
      `date` is free text: the edit dialog writes a picked date with the
      pattern `yyyy-MM-dd` in the device locale, or `""` when none was
      picked, and the server's dates are not constrained at all;
      `image` is a server-relative path or nothing. */
  datatype Event = Event(
    id: Option<int>,
    name: string,
    date: string,
    location: string,
    description: string,
    image: Option<string>,
    isFromCache: bool,
    lastSyncTimestamp: int)

  /** The two records agree on every column the user or the server supplies,
      that is, on everything except the two bookkeeping columns. */
  predicate SameContent(a: Event, b: Event) {
    a.id == b.id && a.name == b.name && a.date == b.date &&
    a.location == b.location && a.description == b.description && a.image == b.image
  }
}
