/** The records decoded from the bundled timeline document
    (Modal/TweetModel.swift and Modal/TimelineModel.swift). Only their shape
    is modelled; JSON decoding is done by a library and is not part of this model. */
module Modal {
  import opened Wrappers

  /** One post: four required strings and three optional fields. */
  datatype TweetModel = TweetModel(
    id: string,
    author: string,
    content: string,
    date: string,
    inReplyTo: Option<string>,
    avatar: Option<string>,
    images: Option<seq<string>>)

  /** The decoded document: its "timeline" array, in document order. */
  datatype TimelineModel = TimelineModel(tweets: seq<TweetModel>)
}
