/**
 * app/__main__.py: the report definition is taken from the loaded YAML
 * document (first entry of `reports`, five keys read with `dict.get`), and
 * `search_artworks` builds the query parameters, sends them, and cuts the
 * response's records to the requested number.
 *
 * Reading and parsing the YAML file, the HTTP request and JSON decoding are
 * outside the model: the document is an input, and the request is the
 * parameter `fetch`, which maps the query parameters to the decoded response.
 */
module ReportMain {
  import opened Values
  import Response

  /** The five settings read from the selected report entry; absent keys read as None. */
  datatype ReportSettings = ReportSettings(
    name: Value,
    search: Value,
    fields: Value,
    maxItems: Value,
    recipients: Value)

  /** `config.get('reports')[0]` on the loaded document. */
  function SelectReport(doc: Value): (r: Result<Value>)
    // a document that is not a mapping (an empty file loads as None) has no `get`
    ensures !doc.Dict? ==> r == Err(AttributeError)
    // a missing or null `reports` makes `None[0]` fail
    ensures doc.Dict? && ("reports" !in doc.entries || doc.entries["reports"] == Null) ==> r == Err(TypeError)
    // an empty list has no element 0
    ensures doc.Dict? && "reports" in doc.entries && doc.entries["reports"] == List([]) ==> r == Err(IndexError)
    // otherwise the selected report is element 0 of the list
    ensures (doc.Dict? && "reports" in doc.entries && doc.entries["reports"].List?
             && |doc.entries["reports"].items| > 0) ==> r == Ok(doc.entries["reports"].items[0])
    // a mapping under `reports` is looked up with the key 0
    ensures doc.Dict? && "reports" in doc.entries && doc.entries["reports"].Dict? ==> r == Err(KeyError(Int(0)))
  {
    var reports :- MethodGet(doc, "reports");
    GetItem(reports, Int(0))
  }

  /** `name`, `search`, `fields`, `max_items`, `recipients` read with `config.get`, without validation. */
  function ExtractSettings(config: Value): (r: Result<ReportSettings>)
    ensures r.Ok? <==> config.Dict?
    ensures !config.Dict? ==> r == Err(AttributeError)
    ensures r.Ok? ==>
              && r.value.name == (if "name" in config.entries then config.entries["name"] else Null)
              && r.value.search == (if "search" in config.entries then config.entries["search"] else Null)
              && r.value.fields == (if "fields" in config.entries then config.entries["fields"] else Null)
              && r.value.maxItems == (if "max_items" in config.entries then config.entries["max_items"] else Null)
              && r.value.recipients == (if "recipients" in config.entries then config.entries["recipients"] else Null)
  {
    if !config.Dict? then Err(AttributeError)                // the first `get` already raises
    else Ok(ReportSettings(
      MethodGet(config, "name").value,
      MethodGet(config, "search").value,
      MethodGet(config, "fields").value,
      MethodGet(config, "max_items").value,
      MethodGet(config, "recipients").value))
  }

  /**
   * The module-level configuration steps, from the loaded document to the five
   * settings. Loading succeeds exactly when `reports` is a non-empty list whose
   * first entry is a mapping, and the settings are then that entry's values.
   * (A non-empty string under `reports` yields its first character, which has no `get`.)
   */
  function LoadSettings(doc: Value): (r: Result<ReportSettings>)
    ensures r.Ok? <==>
              && doc.Dict? && "reports" in doc.entries
              && doc.entries["reports"].List? && |doc.entries["reports"].items| > 0
              && doc.entries["reports"].items[0].Dict?
    ensures r.Ok? ==> r == ExtractSettings(doc.entries["reports"].items[0])
  {
    var config :- SelectReport(doc);
    ExtractSettings(config)
  }

  /** The `params` dict of `search_artworks`: {'q': search, 'fields': fields, 'size': artworks}. */
  function QueryParams(search: Value, fields: Value, artworks: Value): (p: Record)
    ensures Keys(p) == ["q", "fields", "size"]
    ensures Lookup(p, "q") == Some(search)
    ensures Lookup(p, "fields") == Some(fields)
    ensures Lookup(p, "size") == Some(artworks)
  {
    var p := [("q", search), ("fields", fields), ("size", artworks)];
    assert |"q"| != |"fields"| && |"q"| != |"size"| && |"fields"| != |"size"|;
    assert p[1..] == [("fields", fields), ("size", artworks)] && p[1..][1..] == [("size", artworks)];
    assert Lookup(p[1..], "size") == Lookup(p[1..][1..], "size") == Some(artworks);
    p
  }

  /**
   * `search_artworks`: the response to the query parameters, cut to `artworks`
   * records. `search_artworks` accepts `email` and never uses it.
   */
  function SearchArtworks(search: Value, fields: Value, artworks: Value, fetch: Record -> Value): (r: Result<Value>)
    ensures var json := fetch(QueryParams(search, fields, artworks));
            && (json.Dict? && "data" !in json.entries ==> r == Err(KeyError(Str("data"))))
            && (!json.Dict? ==> r == Err(TypeError))
            && ((json.Dict? && "data" in json.entries && json.entries["data"].List?
                 && artworks.Int? && artworks.i >= 0) ==>
                  && r.Ok? && r.value.List?
                  && r.value.items <= json.entries["data"].items
                  && |r.value.items| == Min(|json.entries["data"].items|, artworks.i))
  {
    var json := fetch(QueryParams(search, fields, artworks));
    Response.TruncatedData(json, artworks)
  }
}
