/** The song title: the name of the first track-name event of the first
    track, with surrounding white space removed. */
module Title {
  import opened Optional
  import opened Text
  import opened Midi

  /** Index `i` holds the first track-name event of `track`. */
  predicate FirstNameAt(track: seq<Event>, i: int) {
    0 <= i < |track| && track[i].msg.TrackName? &&
    forall j :: 0 <= j < i ==> !track[j].msg.TrackName?
  }

  /** The stripped name of the first track-name event of `track`, if any. */
  function FirstTrackName(track: seq<Event>): (r: Option<string>)
    ensures r.None? <==> forall j :: 0 <= j < |track| ==> !track[j].msg.TrackName?
    ensures forall i :: FirstNameAt(track, i) ==> r == Some(Strip(track[i].msg.name))
  {
    if track == [] then None
    else if track[0].msg.TrackName? then Some(Strip(track[0].msg.name))
    else
      assert forall i :: FirstNameAt(track, i) ==> FirstNameAt(track[1..], i - 1);
      assert forall j :: 1 <= j < |track| ==> track[j] == track[1..][j - 1];
      FirstTrackName(track[1..])
  }

  /** `None` without tracks or without a track name in the first track,
      else the first track name, stripped. */
  function SongTitle(tracks: seq<seq<Event>>): (r: Option<string>)
    ensures r.None? <==> tracks == [] || forall j :: 0 <= j < |tracks[0]| ==> !tracks[0][j].msg.TrackName?
    ensures forall i :: tracks != [] && FirstNameAt(tracks[0], i) ==> r == Some(Strip(tracks[0][i].msg.name))
  {
    if tracks == [] then None else FirstTrackName(tracks[0])
  }
}
