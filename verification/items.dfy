/**
 * The downloader's data: queue items, the settings it reads, the outcome an
 * engine reports for one item and the lifecycle events it emits.
 */
module Items {

  datatype Option<T> = None | Some(value: T)

  /**
   * A user or video identifier. The source keeps ids as numbers or strings:
   * `remove` matches them with the loose `==` (index.js:53), while
   * `hasBeenDownloaded` uses `indexOf`, a strict comparison (index.js:141).
   * Here ids are one type, so both comparisons are plain equality.
   */
  type Id = string

  datatype User = User(id: Id, name: string)

  /** `title` is absent when the video has none; `time` is its text as substituted into a name. */
  datatype Video = Video(id: Id, title: Option<string>, time: string, url: string)

  /** One download request. */
  datatype Item = Item(user: User, video: Video)

  /** The `downloads.engine` setting: the built-in HLS streamer or the ffmpeg transcoder. */
  datatype Engine = Internal | Ffmpeg

  /** The `downloads.*` settings, read at the moment each operation runs. */
  datatype Settings = Settings(
    engine: Engine,
    directory: string,
    fileMode: int,
    fileTemplate: string,
    history: bool)

  /**
   * What the engine finally reports for one dispatched item. The transcoder
   * reports `start` when its process begins and may fail before that, so a
   * failure says whether `start` came first.
   */
  datatype Outcome = Complete | Error(afterStart: bool)
  {
    /** The engine reported `start` before this outcome. */
    predicate Started()
    {
      Complete? || afterStart
    }
  }

  /** The events on the module's emitter (progress events are not modelled). */
  datatype Event =
    | Add(id: Id, value: string)
    | Remove(id: Id)
    | Pause
    | Resume
    | ClearQueue
    | Start(id: Id, url: string)
    | Finish(id: Id)
    | Fail(id: Id)
    | FfmpegDanger
}
