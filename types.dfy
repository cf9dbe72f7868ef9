/** The values that cross from the poller to the presenter (src/types.rs). */
module Types {
  import opened Wrappers

  /** A point in local time. The model reads it from its environment and assumes nothing about it. */
  type Timestamp = int

  /** What is known about the active media session. */
  datatype MediaInfo = MediaInfo(title: string, author: Option<string>, application: string)

  /** One snapshot handed to the channel per loop iteration. */
  datatype StatusUpdate = StatusUpdate(time: Timestamp, media: Option<MediaInfo>)
}
