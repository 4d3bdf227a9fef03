/** The view models of ViewModal/TimelineViewModal.swift: the timeline store
    that owns the list of posts, and the per-post view model that exposes a
    post's fields, its display date and its avatar fetch. */
module ViewModel {
  import opened Wrappers
  import opened Modal
  import opened Service
  import DateFormat

  /** `TweetViewmodel`. Both of its properties are constants, so it is a value. */
  datatype TweetViewmodel = TweetViewmodel(serviceProvider: ServiceProvider, tweet: TweetModel)
  {
    function AuthorName(): string { tweet.author }

    function Content(): string { tweet.content }

    /** `dateString`, shown in the display zone `zone` (minutes east of UTC). */
    function DateString(zone: int): (r: string)
      ensures DateFormat.ParseInternetDateTime(tweet.date).None? ==> r == tweet.date
    {
      DateFormat.DisplayDate(tweet.date, zone)
    }

    /** `fetchAvatar(completion:)`: the one result its completion is called
        with. A post without an avatar fails with `urlError` whatever the
        provider; otherwise the avatar URL string goes to the provider and its
        result is passed through unchanged. */
    function FetchAvatar(): (r: Result<Data, Error>)
      ensures tweet.avatar.None? ==> r == Failure(Request(UrlError))
      ensures tweet.avatar.Some? ==> r == serviceProvider.fetchImage(tweet.avatar.value)
    {
      match tweet.avatar
      case None => Failure(Request(UrlError))
      case Some(urlString) => serviceProvider.fetchImage(urlString)
    }
  }

  /** `authorName` and `content` are the post's own author and text, and the
      view model's provider plays no part in them. */
  lemma PostFields(p1: ServiceProvider, p2: ServiceProvider, tweet: TweetModel)
    ensures TweetViewmodel(p1, tweet).AuthorName() == TweetViewmodel(p2, tweet).AuthorName() == tweet.author
    ensures TweetViewmodel(p1, tweet).Content() == TweetViewmodel(p2, tweet).Content() == tweet.content
  {
  }

  /** Without an avatar the provider is never consulted: any two providers
      give the same result. */
  lemma FetchAvatarWithoutUrl(p1: ServiceProvider, p2: ServiceProvider, tweet: TweetModel)
    requires tweet.avatar.None?
    ensures TweetViewmodel(p1, tweet).FetchAvatar() == TweetViewmodel(p2, tweet).FetchAvatar()
    ensures TweetViewmodel(p1, tweet).FetchAvatar().Failure?
  {
  }

  /** With an avatar, providers that answer alike for that URL string give the
      same result, whatever they answer for other strings. */
  lemma FetchAvatarForwardsUrl(p1: ServiceProvider, p2: ServiceProvider, tweet: TweetModel)
    requires tweet.avatar.Some?
    requires p1.fetchImage(tweet.avatar.value) == p2.fetchImage(tweet.avatar.value)
    ensures TweetViewmodel(p1, tweet).FetchAvatar() == TweetViewmodel(p2, tweet).FetchAvatar()
  {
  }

  /** The test double succeeds for a post with an avatar when no error is set,
      and reports the error it was given otherwise. */
  lemma FetchAvatarWithMock(timeline: Option<TimelineModel>, mockError: Option<Error>, tweet: TweetModel)
    requires tweet.avatar.Some?
    ensures var r := TweetViewmodel(MockService(timeline, mockError), tweet).FetchAvatar();
      (mockError.None? ==> r == Success([])) && (mockError.Some? ==> r == Failure(mockError.value))
  {
  }

  /** `TimelineViewmodel`: owns the posts of the session. */
  class TimelineViewmodel {
    var tweets: seq<TweetModel>
    const serviceProvider: ServiceProvider

    /** A store that has loaded nothing yet. */
    constructor (dataProvider: ServiceProvider)
      ensures tweets == [] && serviceProvider == dataProvider
    {
      tweets := [];
      serviceProvider := dataProvider;
    }

    /** `tweet(at:)`: the view model of the post at `index`, which must be a
        valid index (Swift traps on any other). The view model is given
        `tweetProvider`, which stands for the default provider the source
        constructs for it. */
    method TweetAt(index: int, tweetProvider: ServiceProvider) returns (vm: TweetViewmodel)
      requires 0 <= index < |tweets|
      ensures vm.tweet == tweets[index] && vm.serviceProvider == tweetProvider
      ensures vm.AuthorName() == tweets[index].author && vm.Content() == tweets[index].content
    {
      vm := TweetViewmodel(tweetProvider, tweets[index]);
    }

    /** `getNumberOfRowsInSection()`: the number of posts held. */
    method GetNumberOfRowsInSection() returns (n: int)
      ensures n == |tweets|
    {
      n := |tweets|;
    }

    /** `fetchTimeline()`: asks the provider for the timeline once; when it
        gives one, its posts replace the held ones in document order;
        otherwise the held posts stay as they were. */
    method FetchTimeline()
      modifies this
      ensures tweets == match serviceProvider.fetchTweets()
                        case Some(timeline) => timeline.tweets
                        case None => old(tweets)
    {
      var fetched := serviceProvider.fetchTweets();
      if fetched.Some? {
        tweets := fetched.value.tweets;
      }
    }
  }

  /** The load-then-count sequence of the test suite: a new store loaded from
      a provider reports as many rows as the provider's timeline has posts,
      and holds them in document order; with no timeline it reports zero. */
  method LoadAndCount(provider: ServiceProvider) returns (n: int, loaded: seq<TweetModel>)
    ensures provider.fetchTweets().Some? ==>
      n == |provider.fetchTweets().value.tweets| && loaded == provider.fetchTweets().value.tweets
    ensures provider.fetchTweets().None? ==> n == 0 && loaded == []
  {
    var vm := new TimelineViewmodel(provider);
    vm.FetchTimeline();
    n := vm.GetNumberOfRowsInSection();
    loaded := vm.tweets;
  }
}
