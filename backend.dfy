/**
  The interface of the metadata backend as the handler consumes it: the
  entry descriptors of a directory listing, and the listing call itself,
  which is given as a function from (pool root, directory) to a listing
  or a failure.
 */
module Backend {
  import opened Wrappers
  import opened Paths

  const U64_LIMIT: int := 0x1_0000_0000_0000_0000

  type u64 = x: int | 0 <= x < U64_LIMIT

  /** A timestamp as the backend reports it. */
  type Time = int

  /** `librfs::model::Entry`: a file or a directory with its size and modification time. */
  datatype Entry =
    | File(size: u64, modifiedAt: Time)
    | Directory(size: u64, modifiedAt: Time)

  /** A directory listing: child names with their entries, in the backend's order. */
  type Listing = seq<(Name, Entry)>

  datatype BackendError = BackendError(message: string)

  type ListingResult = Result<Listing, BackendError>

  /** `list_directory(pool_root, directory)`, whose answer the handler waits for. */
  type ListDirectory = (string, Path) -> ListingResult

  /** `listing.get(name)`: the entry the listing holds for `name`, the first one if there are several. */
  function Find(children: Listing, name: Name): (r: Option<Entry>)
    ensures r.None? <==> forall k :: 0 <= k < |children| ==> children[k].0 != name
    ensures r.Some? ==> exists k :: 0 <= k < |children| && children[k] == (name, r.value)
                                    && forall j :: 0 <= j < k ==> children[j].0 != name
  {
    if children == [] then None
    else if children[0].0 == name then Some(children[0].1)
    else
      var r := Find(children[1..], name);
      assert forall k :: 1 <= k < |children| ==> children[k] == children[1..][k - 1];
      r
  }
}
