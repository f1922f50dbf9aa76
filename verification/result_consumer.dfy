/** The consumer of the video processor's results: each delivered message
    updates at most one lecture and is acknowledged exactly once, whatever
    happens while it is handled. */
module ResultConsumer {
  import opened Entities

  const VideoResultQueue: string := "video_result_queue"

  /** A JSON field: missing, explicitly null, or carrying a value. */
  datatype JsonField<T> = Absent | Null | Present(value: T)

  /** A parsed result message `{lectureId, status, hls_url, duration, error}`.
      The error text is only logged and is not part of the model. */
  datatype VideoResult = VideoResult(
    lectureId: JsonField<Id>,
    status: JsonField<string>,
    hlsUrl: JsonField<string>,
    duration: JsonField<int>)

  /** What the broker hands to the callback: no message (the consumer was
      cancelled), a body that is not valid JSON, or a parsed result. */
  datatype Delivery = NoMessage | Unparsable | Parsed(result: VideoResult)

  /** The store after handling one delivery and the number of acks sent. */
  datatype Handled = Handled(store: Store, acks: nat)

  /** How an update writes a nullable column from a JSON field: a missing field
      leaves it, null clears it, a value sets it. */
  function WriteField<T>(f: JsonField<T>, current: Option<T>): Option<T> {
    match f
    case Absent => current
    case Null => None
    case Present(v) => Some(v)
  }

  /** The lecture after a result, or the lecture unchanged when the status is
      neither COMPLETED nor FAILED. */
  function ApplyResult(l: Lecture, res: VideoResult): Lecture {
    if res.status == Present("COMPLETED") then
      l.(videoUrl := WriteField(res.hlsUrl, l.videoUrl),
         videoDurationSeconds := WriteField(res.duration, l.videoDurationSeconds))
    else if res.status == Present("FAILED") then
      l.(videoUrl := None)
    else l
  }

  /** Handles one delivery. `updateThrows` says whether the database update
      fails (the lecture vanished between lookup and update, say); the error
      is logged and the message is acknowledged anyway. A lookup with a missing
      or null `lectureId` throws and is handled the same way. */
  function HandleResultMessage(st: Store, msg: Delivery, updateThrows: bool): (r: Handled)
    ensures msg.NoMessage? ==> r == Handled(st, 0)
    ensures !msg.NoMessage? ==> r.acks == 1
    ensures r.store.courses == st.courses && r.store.sections == st.sections
    ensures r.store.lectures.Keys == st.lectures.Keys
    ensures forall id :: id in st.lectures && (!msg.Parsed? || msg.result.lectureId != Present(id))
              ==> r.store.lectures[id] == st.lectures[id]
    ensures msg.Parsed? && msg.result.lectureId.Present? && msg.result.lectureId.value in st.lectures
            && !updateThrows ==>
              var id := msg.result.lectureId.value;
              var l := st.lectures[id];
              var l' := r.store.lectures[id];
              && (msg.result.status == Present("COMPLETED") ==>
                    && (msg.result.hlsUrl.Present? ==> l'.videoUrl == Some(msg.result.hlsUrl.value))
                    && (msg.result.hlsUrl.Null? ==> l'.videoUrl.None?)
                    && (msg.result.hlsUrl.Absent? ==> l'.videoUrl == l.videoUrl)
                    && (msg.result.duration.Present? ==>
                          l'.videoDurationSeconds == Some(msg.result.duration.value))
                    && (msg.result.duration.Null? ==> l'.videoDurationSeconds.None?)
                    && (msg.result.duration.Absent? ==> l'.videoDurationSeconds == l.videoDurationSeconds)
                    && l' == l.(videoUrl := l'.videoUrl, videoDurationSeconds := l'.videoDurationSeconds))
              && (msg.result.status == Present("FAILED") ==> l' == l.(videoUrl := None))
              && ((msg.result.status != Present("COMPLETED") && msg.result.status != Present("FAILED"))
                    ==> l' == l)
    ensures updateThrows ==> r.store == st
    ensures Valid(st) ==> Valid(r.store)
  {
    match msg
    case NoMessage => Handled(st, 0)
    case Unparsable => Handled(st, 1)
    case Parsed(res) =>
      if !res.lectureId.Present? || res.lectureId.value !in st.lectures then Handled(st, 1)
      else if updateThrows then Handled(st, 1)
      else
        var id := res.lectureId.value;
        Handled(st.(lectures := st.lectures[id := ApplyResult(st.lectures[id], res)]), 1)
  }

  /** Handling the same result twice leaves the store as handling it once:
      duplicate deliveries are harmless. */
  lemma HandleTwiceIsHandleOnce(st: Store, msg: Delivery)
    ensures var once := HandleResultMessage(st, msg, false).store;
            HandleResultMessage(once, msg, false).store == once
  {
    var once := HandleResultMessage(st, msg, false).store;
    if msg.Parsed? && msg.result.lectureId.Present? && msg.result.lectureId.value in st.lectures {
      var id := msg.result.lectureId.value;
      assert ApplyResult(ApplyResult(st.lectures[id], msg.result), msg.result)
          == ApplyResult(st.lectures[id], msg.result);
      assert once.lectures[id := ApplyResult(once.lectures[id], msg.result)] == once.lectures;
    }
  }
}
