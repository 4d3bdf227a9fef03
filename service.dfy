/** The data-provider capability the view models depend on
    (the `ServiceProtocol` shape of Service/Service.swift). */
module Service {
  import opened Wrappers
  import opened Modal

  /** The error cases the service layer reports by name. */
  datatype RequestError = UrlError | NoData | DecodeError | SerializeError | NoResponse

  /** Any error a provider may hand to an image completion: one of the named
      request errors, or an error from the transport, identified by its code. */
  datatype Error = Request(kind: RequestError) | Transport(code: int)

  newtype byte = x: int | 0 <= x < 256

  type Data = seq<byte>

  /** A provider is the pair of operations of the protocol. `fetchTweets` gives
      the decoded timeline or nothing; `fetchImage` gives the single result its
      completion is called with for the given URL string. */
  datatype ServiceProvider = ServiceProvider(
    fetchTweets: () -> Option<TimelineModel>,
    fetchImage: string -> Result<Data, Error>)

  /** The test double of the test suite: it returns a fixed timeline, and its
      image fetch fails with `mockError` when one is set and otherwise succeeds
      with empty data. */
  function MockService(timeline: Option<TimelineModel>, mockError: Option<Error>): (p: ServiceProvider)
    ensures p.fetchTweets() == timeline
    ensures forall url :: p.fetchImage(url) == if mockError.Some? then Failure(mockError.value) else Success([])
  {
    ServiceProvider(
      () => timeline,
      (url: string) => if mockError.Some? then Failure(mockError.value) else Success([]))
  }
}
