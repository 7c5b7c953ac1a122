/** The parts of an HTTP request the handlers look at: the method and the
    decoded query and form parameters in the order they were sent. */
module Http {
  import opened Options

  const MethodGet: string := "GET"
  const MethodPost: string := "POST"

  const StatusSeeOther: int := 303
  const StatusBadRequest: int := 400
  const StatusMethodNotAllowed: int := 405
  const StatusInternalServerError: int := 500

  /** Decoded key/value pairs of a query string or form body, in order. */
  type Params = seq<(string, string)>

  /** The form body as ParseForm leaves it: unreadable, or parsed. */
  datatype Form = Malformed | Fields(fields: Params)

  datatype Request = Request(verb: string, query: Params, form: Form)

  /** values[key][0] of url.Values: the first value sent under key. Go's map
      keeps every value sent under a key in order, so a key is present exactly
      when some pair carries it. */
  function Lookup(params: Params, key: string): (r: Option<string>)
    ensures r.None? <==> forall i :: 0 <= i < |params| ==> params[i].0 != key
    ensures r.Some? ==> exists i :: 0 <= i < |params| && params[i] == (key, r.value) &&
                                  forall j :: 0 <= j < i ==> params[j].0 != key
    decreases |params|
  {
    if params == [] then None
    else if params[0].0 == key then Some(params[0].1)
    else
      var r := Lookup(params[1..], key);
      if r.Some? then
        ghost var i :| 0 <= i < |params[1..]| && params[1..][i] == (key, r.value) &&
                       forall j :: 0 <= j < i ==> params[1..][j].0 != key;
        assert params[i + 1] == (key, r.value);
        r
      else r
  }
}
