/**
 * Taking the records out of a decoded search response: both report scripts do
 * `json_data["data"][:artworks]` on whatever the API returned.
 */
module Response {
  import opened Values

  /** `json_data["data"][:artworks]`. */
  function TruncatedData(json: Value, artworks: Value): (r: Result<Value>)
    // a response that is not a mapping cannot be indexed by "data"
    ensures !json.Dict? ==> r == Err(TypeError)
    // a mapping without "data" raises KeyError before anything else happens
    ensures json.Dict? && "data" !in json.entries ==> r == Err(KeyError(Str("data")))
    // what comes back can always be iterated over
    ensures r.Ok? ==> r.value.List? || r.value.Str?
    // a list of records is cut to a prefix of itself
    ensures (json.Dict? && "data" in json.entries && json.entries["data"].List?
             && (artworks.Int? || artworks.Null?)) ==>
              r.Ok? && r.value.List? && r.value.items <= json.entries["data"].items
    // a non-negative limit keeps min(N, artworks) records
    ensures (json.Dict? && "data" in json.entries && json.entries["data"].List?
             && artworks.Int? && artworks.i >= 0) ==>
              |r.value.items| == Min(|json.entries["data"].items|, artworks.i)
    // a negative limit drops that many records from the end
    ensures (json.Dict? && "data" in json.entries && json.entries["data"].List?
             && artworks.Int? && artworks.i < 0) ==>
              |r.value.items| == Max(0, |json.entries["data"].items| + artworks.i)
    // no limit (None) keeps every record
    ensures (json.Dict? && "data" in json.entries && json.entries["data"].List?
             && artworks.Null?) ==> r == Ok(json.entries["data"])
  {
    var data :- GetItem(json, Str("data"));
    assert data.List? ==> data.items[..|data.items|] == data.items;
    SliceTo(data, artworks)
  }
}
