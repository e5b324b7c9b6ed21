/**
 * The uniform response envelope of the REST API: an immutable value with a
 * status code, a message, an optional payload and a map of hypermedia links
 * (name to URL). Factories fix the code and the message; `WithLinks` builds
 * a copy carrying new links.
 */
module Controllers {
  import opened Model

  type Links = map<string, string>

  datatype ApiResponse<T> = ApiResponse(code: int32, message: string, data: Option<T>, links: Links)

  /**
   * The public four-argument constructor: a null links map becomes the empty
   * map, any other map is kept.
   */
  function NewResponse<T>(code: int32, message: string, data: Option<T>, links: Option<Links>): (r: ApiResponse<T>)
    ensures r.code == code && r.message == message && r.data == data
    ensures links.None? ==> r.links == map[]
    ensures links.Some? ==> r.links == links.value
  {
    ApiResponse(code, message, data, if links.Some? then links.value else map[])
  }

  /** The private three-argument constructor: no links. */
  function NewResponseWithoutLinks<T>(code: int32, message: string, data: Option<T>): (r: ApiResponse<T>)
    ensures r.code == code && r.message == message && r.data == data && r.links == map[]
  {
    NewResponse(code, message, data, Some(map[]))
  }

  /** A new response with the same code, message and data and the given links. */
  function WithLinks<T>(response: ApiResponse<T>, links: Option<Links>): (r: ApiResponse<T>)
    ensures r.code == response.code && r.message == response.message && r.data == response.data
    ensures links.Some? ==> r.links == links.value
    ensures links.None? ==> r.links == map[]
  {
    NewResponse(response.code, response.message, response.data, links)
  }

  /** 200 OK. */
  function Ok<T>(data: Option<T>): (r: ApiResponse<T>)
    ensures r.code == 200 && r.message == "execute ok" && r.data == data && r.links == map[]
  {
    NewResponseWithoutLinks(200, "execute ok", data)
  }

  /** 201 Created. */
  function Created<T>(data: Option<T>): (r: ApiResponse<T>)
    ensures r.code == 201 && r.message == "resource created" && r.data == data && r.links == map[]
  {
    NewResponseWithoutLinks(201, "resource created", data)
  }

  /** 202 Accepted. */
  function Accepted<T>(data: Option<T>): (r: ApiResponse<T>)
    ensures r.code == 202 && r.message == "update accepted" && r.data == data && r.links == map[]
  {
    NewResponseWithoutLinks(202, "update accepted", data)
  }

  /** 400 Bad Request: the caller's message, no data. */
  function BadRequest<T>(message: string): (r: ApiResponse<T>)
    ensures r.code == 400 && r.message == message && r.data == None && r.links == map[]
  {
    NewResponseWithoutLinks(400, message, None)
  }

  /** 404 Not Found: the caller's message, no data. */
  function NotFound<T>(message: string): (r: ApiResponse<T>)
    ensures r.code == 404 && r.message == message && r.data == None && r.links == map[]
  {
    NewResponseWithoutLinks(404, message, None)
  }

  /** 409 Conflict: the caller's message, no data. */
  function Conflict<T>(message: string): (r: ApiResponse<T>)
    ensures r.code == 409 && r.message == message && r.data == None && r.links == map[]
  {
    NewResponseWithoutLinks(409, message, None)
  }

  /**
   * Attaching links changes nothing but the links, and only the last set of
   * links attached is kept.
   */
  lemma WithLinksLastWins<T>(response: ApiResponse<T>, first: Option<Links>, second: Option<Links>)
    ensures WithLinks(WithLinks(response, first), second) == WithLinks(response, second)
    ensures WithLinks(response, Some(response.links)) == response
  {
  }

  /**
   * Attaching links to `Ok` gives a new value; the original still has no
   * links, and the new one has exactly the attached ones.
   */
  lemma WithLinksKeepsOriginal<T>(d: Option<T>, links: Links)
    ensures Ok(d).links == map[]
    ensures WithLinks(Ok(d), Some(links)).links == links
    ensures WithLinks(Ok(d), Some(links)).code == 200
    ensures links != map[] ==> WithLinks(Ok(d), Some(links)) != Ok(d)
  {
  }

  /** Null links through the public constructor mean no links. */
  lemma NullLinksAreEmpty<T>(code: int32, message: string, data: Option<T>)
    ensures NewResponse(code, message, data, None) == NewResponseWithoutLinks(code, message, data)
    ensures NewResponse(code, message, data, None).links == map[]
  {
  }
}
