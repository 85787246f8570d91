/**
 * TTSManager.kt: turning a (direction code, distance, item) instruction into an
 * ordered list of pre-synthesised voice clips, and the bookkeeping of clips
 * still being synthesised and of an instruction deferred until they are.
 *
 * Files on disk are an input set of clips; the speech engine and the media
 * player are represented by the events they are asked to perform.
 */
module Tts {
  import opened Common

  /** `File(getCategoryDir(category), name)`: a clip file in one cache sub-directory. */
  datatype Clip = Clip(category: string, name: string)

  /** What the manager asks of the outside world, in order. */
  datatype Event =
    | Synthesize(text: string, clip: Clip, utteranceId: string)  // tts.synthesizeToFile
    | Play(clips: seq<Clip>)                                    // playSequence over a non-empty list
    | Completed                                                 // the caller's onComplete

  const DirectionMap: map<string, string> := map["좌측" := "left.mp3", "우측" := "right.mp3", "전방" := "forward"]

  const DistanceMap: map<string, string> :=
    map["1미터" := "1m.mp3", "2미터" := "2m.mp3", "3미터" := "3m.mp3", "4미터" := "4m.mp3", "5미터" := "5m.mp3"]

  /** The location clips the manager starts with; items met later are added to its own copy. */
  const DefaultLocations: map<string, string> := map[
    "버스정류장" := "bus_stop.mp3",
    "카페" := "cafe.mp3",
    "스타벅스" := "starbucks.mp3",
    "이디야" := "ediya.mp3",
    "투썸플레이스" := "twosome_place.mp3",
    "빽다방" := "paikdabang.mp3",
    "할리스커피" := "hollis_coffee.mp3",
    "커피빈" := "coffeebean.mp3",
    "폴바셋" := "paulbassett.mp3",
    "카페베네" := "cafebene.mp3",
    "탐앤탐스" := "tomntoms.mp3",
    "메가커피" := "mega_coffee.mp3"]

  /** The one obstacle item, "장애물". */
  const ObstacleItem: string := "장애물"
  const ObstacleMap: map<string, string> := map[ObstacleItem := "obstacle.mp3"]

  const FixedEndFile: string := "fixed_end.mp3"
  const CautionFile: string := "obstacle_caution.mp3"

  /** The `when (rawDirection)` of playInstruction. */
  function DirectionKey(code: string): Option<string> {
    if code == "L" then Some("좌측")
    else if code == "R" then Some("우측")
    else if code == "F" then Some("전방")
    else None
  }

  /** The direction clip: left, right or front for "L", "R", "F", and none for any other code. */
  function DirectionClip(code: string): (c: Option<Clip>)
    ensures c.Some? <==> code == "L" || code == "R" || code == "F"
    ensures code == "L" ==> c == Some(Clip("direction", "left.mp3"))
    ensures code == "R" ==> c == Some(Clip("direction", "right.mp3"))
    ensures code == "F" ==> c == Some(Clip("direction", "forward"))
  {
    var key := DirectionKey(code);
    if key.Some? && key.value in DirectionMap then Some(Clip("direction", DirectionMap[key.value])) else None
  }

  /** `rawDistance.coerceIn(1f, 5f).toInt()`: whole metres, from 1 to 5. */
  function DistanceBand(raw: real): (m: int)
    ensures 1 <= m <= 5
    ensures raw <= 1.0 ==> m == 1
    ensures raw >= 5.0 ==> m == 5
    ensures 1.0 <= raw <= 5.0 ==> m as real <= raw < m as real + 1.0
  {
    Trunc(CoerceIn(raw, 1.0, 5.0))
  }

  /** `"${m}미터"` for a one-digit `m`. */
  function DistanceKey(m: int): string
    requires 0 <= m <= 9
  {
    [('0' as int + m) as char] + "미터"
  }

  /** The distance clip: always present, `"<m>m.mp3"` for the band m of the distance. */
  function DistanceClip(raw: real): (c: Option<Clip>)
    ensures c == Some(Clip("distance", [('0' as int + DistanceBand(raw)) as char] + "m.mp3"))
  {
    var m := DistanceBand(raw);
    var key := DistanceKey(m);
    DistanceKeyPresent(m);
    if key in DistanceMap then Some(Clip("distance", DistanceMap[key])) else None
  }

  /** Each band from 1 to 5 has its key in the distance map, naming the file `"<m>m.mp3"`. */
  lemma DistanceKeyPresent(m: int)
    requires 1 <= m <= 5
    ensures DistanceKey(m) in DistanceMap
    ensures DistanceMap[DistanceKey(m)] == [('0' as int + m) as char] + "m.mp3"
  {
    if m == 1 {
      assert DistanceKey(m) == "1미터";
    } else if m == 2 {
      assert DistanceKey(m) == "2미터";
    } else if m == 3 {
      assert DistanceKey(m) == "3미터";
    } else if m == 4 {
      assert DistanceKey(m) == "4미터";
    } else {
      assert DistanceKey(m) == "5미터";
    }
  }

  /** The item's clip: the obstacle clip for "장애물", otherwise the location clip the map holds. */
  function ItemClip(item: string, locations: map<string, string>): Clip
    requires item != ObstacleItem ==> item in locations
  {
    if item in ObstacleMap then Clip("obstacle", ObstacleMap[item]) else Clip("location", locations[item])
  }

  /** The list playInstruction assembles, given the location map after the item was looked up. */
  function Playlist(rawDirection: string, rawDistance: real, item: string, locations: map<string, string>): seq<Clip>
    requires item != ObstacleItem ==> item in locations
  {
    var dir := DirectionClip(rawDirection);
    var dist := DistanceClip(rawDistance);
    (if dir.Some? then [dir.value] else [])
    + (if dist.Some? then [dist.value] else [])
    + [ItemClip(item, locations)]
    + [Clip("fixed", FixedEndFile)]
    + (if item == ObstacleItem then [Clip("fixed", CautionFile)] else [])
  }

  /**
   * The playlist is: the direction clip when the code names one, the distance
   * clip, the item clip, the fixed ending, and the caution clip last for an obstacle.
   */
  lemma PlaylistLayout(rawDirection: string, rawDistance: real, item: string, locations: map<string, string>)
    requires item != ObstacleItem ==> item in locations
    ensures var files := Playlist(rawDirection, rawDistance, item, locations);
      var d := if rawDirection in {"L", "R", "F"} then 1 else 0;
      var o := if item == ObstacleItem then 1 else 0;
      |files| == d + 3 + o &&
      (d == 1 ==> files[0].category == "direction") &&
      files[d] == DistanceClip(rawDistance).value &&
      files[d + 1] == ItemClip(item, locations) &&
      files[d + 2] == Clip("fixed", FixedEndFile) &&
      (o == 1 ==> files[d + 3] == Clip("fixed", CautionFile))
  {
  }

  /** The caution clip is in the list exactly for the obstacle, and the list always ends on a fixed clip. */
  lemma CautionOnlyForObstacle(rawDirection: string, rawDistance: real, item: string, locations: map<string, string>)
    requires item != ObstacleItem ==> item in locations
    ensures var files := Playlist(rawDirection, rawDistance, item, locations);
      (Clip("fixed", CautionFile) in files <==> item == ObstacleItem) &&
      files[|files| - 1] == Clip("fixed", if item == ObstacleItem then CautionFile else FixedEndFile)
  {
    var files := Playlist(rawDirection, rawDistance, item, locations);
    PlaylistLayout(rawDirection, rawDistance, item, locations);
    if item != ObstacleItem {
      forall k | 0 <= k < |files|
        ensures files[k] != Clip("fixed", CautionFile)
      {
      }
    }
  }

  /** The `mutableListOf<File>().apply { ... }` block of playInstruction, once the item's file is known. */
  method AssembleFiles(rawDirection: string, rawDistance: real, item: string, locations: map<string, string>)
    returns (files: seq<Clip>)
    requires item != ObstacleItem ==> item in locations
    ensures files == Playlist(rawDirection, rawDistance, item, locations)
  {
    var dirKey := DirectionKey(rawDirection);
    var distKey := DistanceKey(DistanceBand(rawDistance));
    files := [];
    if dirKey.Some? && dirKey.value in DirectionMap {
      files := files + [Clip("direction", DirectionMap[dirKey.value])];
    }
    if distKey in DistanceMap {
      files := files + [Clip("distance", DistanceMap[distKey])];
    }
    var isObs := item in ObstacleMap;
    var fn := if isObs then ObstacleMap[item] else locations[item];
    files := files + [Clip(if isObs then "obstacle" else "location", fn)];
    files := files + [Clip("fixed", FixedEndFile)];
    if isObs {
      files := files + [Clip("fixed", CautionFile)];
    }
  }

  /** Kotlin `files.filter { it.exists() }`: the clips on disk, in list order. */
  function Present(files: seq<Clip>, onDisk: set<Clip>): (r: seq<Clip>)
    ensures |r| <= |files|
    ensures forall c :: c in r <==> c in files && c in onDisk
  {
    if |files| == 0 then []
    else
      var rest := Present(files[1..], onDisk);
      assert forall c :: c in files <==> c == files[0] || c in files[1..];
      if files[0] in onDisk then [files[0]] + rest else rest
  }

  /** Kotlin `files.filterNot { it.exists() }`: the clips still missing. */
  function Absent(files: seq<Clip>, onDisk: set<Clip>): (r: seq<Clip>)
    ensures |r| <= |files|
    ensures forall c :: c in r <==> c in files && c !in onDisk
  {
    if |files| == 0 then []
    else
      var rest := Absent(files[1..], onDisk);
      assert forall c :: c in files <==> c == files[0] || c in files[1..];
      if files[0] !in onDisk then [files[0]] + rest else rest
  }

  /** Every clip is either present or missing: the two filters split the list. */
  lemma {:induction false} PresentAbsentSplit(files: seq<Clip>, onDisk: set<Clip>)
    ensures |Present(files, onDisk)| + |Absent(files, onDisk)| == |files|
    ensures |Absent(files, onDisk)| == 0 <==> Present(files, onDisk) == files
  {
    if |files| > 0 {
      PresentAbsentSplit(files[1..], onDisk);
    }
  }

  /** The utterance id of a synthesis request, `"$category-$fileName"`. */
  function UtteranceId(clip: Clip): string {
    clip.category + "-" + clip.name
  }

  /**
   * The built-in locations keep their clips, the obstacle never becomes a
   * location, and every learned location is named `"$item.mp3"`.
   */
  ghost predicate ValidLocations(locations: map<string, string>) {
    && (forall k :: k in DefaultLocations ==> k in locations && locations[k] == DefaultLocations[k])
    && ObstacleItem !in locations
    && (forall k :: k in locations && k !in DefaultLocations ==> locations[k] == k + ".mp3")
  }

  /** The speech side of TTsManager. */
  class TtsManager {
    var isInitialized: bool
    var isSpeaking: bool
    var pendingUtterances: set<string>
    /** The playback stored while clips are missing: the full list, filtered again when it runs. */
    var pendingInstruction: Option<seq<Clip>>
    var locationMap: map<string, string>
    var log: seq<Event>

    /** The location map keeps the invariant ValidLocations states. */
    ghost predicate Valid()
      reads this
    {
      ValidLocations(locationMap)
    }

    constructor ()
      ensures Valid()
      ensures !isInitialized && !isSpeaking
      ensures pendingUtterances == {} && pendingInstruction == None
      ensures locationMap == DefaultLocations && log == []
    {
      isInitialized := false;
      isSpeaking := false;
      pendingUtterances := {};
      pendingInstruction := None;
      locationMap := DefaultLocations;
      log := [];
    }

    /** onInit: the manager is ready exactly when the engine reports success. */
    method OnInit(success: bool)
      modifies this
      ensures isInitialized == success
      ensures isSpeaking == old(isSpeaking) && pendingUtterances == old(pendingUtterances)
      ensures pendingInstruction == old(pendingInstruction) && locationMap == old(locationMap) && log == old(log)
    {
      isInitialized := success;
    }

    /**
     * synthesizeToFile: when ready and the clip is not on disk, ask the engine to
     * synthesise it and remember its utterance id as pending; otherwise nothing.
     */
    method SynthesizeToFile(text: string, fileName: string, category: string, onDisk: set<Clip>)
      modifies this
      ensures var clip := Clip(category, fileName);
        if old(isInitialized) && clip !in onDisk then
          pendingUtterances == old(pendingUtterances) + {UtteranceId(clip)} &&
          log == old(log) + [Synthesize(text, clip, UtteranceId(clip))]
        else
          pendingUtterances == old(pendingUtterances) && log == old(log)
      ensures isInitialized == old(isInitialized) && isSpeaking == old(isSpeaking)
      ensures pendingInstruction == old(pendingInstruction) && locationMap == old(locationMap)
    {
      if !isInitialized {
        return;
      }
      var outFile := Clip(category, fileName);
      if outFile !in onDisk {
        var utteranceId := category + "-" + fileName;
        log := log + [Synthesize(text, outFile, utteranceId)];
        pendingUtterances := pendingUtterances + {utteranceId};
      }
    }

    /**
     * playInstruction. Ignored while not ready or already speaking. Otherwise an
     * unknown location item is learned as `"$item.mp3"` (with one synthesis
     * request when that file is missing), and the playlist is played; if any of
     * its clips is missing the call instead reports completion at once and stores
     * the playback as the pending instruction.
     */
    method PlayInstruction(rawDirection: string, rawDistance: real, item: string, onDisk: set<Clip>)
      requires Valid()
      modifies this
      ensures Valid()
      ensures !old(isInitialized) || old(isSpeaking) ==>
        isInitialized == old(isInitialized) && isSpeaking == old(isSpeaking) &&
        pendingUtterances == old(pendingUtterances) && pendingInstruction == old(pendingInstruction) &&
        locationMap == old(locationMap) && log == old(log)
      ensures old(isInitialized) && !old(isSpeaking) ==>
        var learned := item != ObstacleItem && item !in old(locationMap);
        var newClip := Clip("location", item + ".mp3");
        var synth := if learned && newClip !in onDisk then [Synthesize(item, newClip, UtteranceId(newClip))] else [];
        isInitialized &&
        locationMap == (if learned then old(locationMap)[item := item + ".mp3"] else old(locationMap)) &&
        var files := Playlist(rawDirection, rawDistance, item, locationMap);
        pendingUtterances == old(pendingUtterances) + (if |synth| == 1 then {UtteranceId(newClip)} else {}) &&
        (if |Absent(files, onDisk)| > 0 then
          !isSpeaking && pendingInstruction == Some(files) && log == old(log) + synth + [Completed]
        else
          isSpeaking && pendingInstruction == old(pendingInstruction) && log == old(log) + synth + [Play(files)])
    {
      if !isInitialized || isSpeaking {
        return;
      }
      isSpeaking := true;

      if item !in ObstacleMap {
        var _ := LocationFile(item, onDisk);
      }
      var files := AssembleFiles(rawDirection, rawDistance, item, locationMap);
      Dispatch(files, onDisk);
    }

    /**
     * The end of playInstruction: with a clip missing, the playback is stored and
     * completion reported at once; otherwise the playlist starts.
     */
    method Dispatch(files: seq<Clip>, onDisk: set<Clip>)
      modifies this
      ensures isInitialized == old(isInitialized) && pendingUtterances == old(pendingUtterances)
      ensures locationMap == old(locationMap)
      ensures if |Absent(files, onDisk)| > 0 then
          !isSpeaking && pendingInstruction == Some(files) && log == old(log) + [Completed]
        else
          isSpeaking == old(isSpeaking) && pendingInstruction == old(pendingInstruction) &&
          log == old(log) + [Play(files)]
    {
      var missing := Absent(files, onDisk);
      if |missing| > 0 {
        pendingInstruction := Some(files);
        isSpeaking := false;
        log := log + [Completed];
        return;
      }
      log := log + [Play(files)];
    }

    /**
     * `locationMap.getOrPut(item)`: the known file of a location, or a new entry
     * `"$item.mp3"`, requested from the speech engine, for an unknown one.
     */
    method LocationFile(item: string, onDisk: set<Clip>) returns (fn: string)
      requires Valid() && item != ObstacleItem
      modifies this
      ensures Valid()
      ensures var learned := item !in old(locationMap);
        var newClip := Clip("location", item + ".mp3");
        locationMap == (if learned then old(locationMap)[item := item + ".mp3"] else old(locationMap)) &&
        item in locationMap && fn == locationMap[item] &&
        if learned && old(isInitialized) && newClip !in onDisk then
          pendingUtterances == old(pendingUtterances) + {UtteranceId(newClip)} &&
          log == old(log) + [Synthesize(item, newClip, UtteranceId(newClip))]
        else
          pendingUtterances == old(pendingUtterances) && log == old(log)
      ensures isInitialized == old(isInitialized) && isSpeaking == old(isSpeaking)
      ensures pendingInstruction == old(pendingInstruction)
    {
      if item in locationMap {
        fn := locationMap[item];
        return;
      }
      var newFile := item + ".mp3";
      SynthesizeToFile(item, newFile, "location", onDisk);
      locationMap := locationMap[item := newFile];
      fn := newFile;
    }

    /**
     * The end of a playSequence started by playInstruction or by the pending
     * instruction: speaking stops and the caller's completion runs.
     */
    method PlaybackFinished()
      modifies this
      ensures !isSpeaking && log == old(log) + [Completed]
      ensures isInitialized == old(isInitialized) && pendingUtterances == old(pendingUtterances)
      ensures pendingInstruction == old(pendingInstruction) && locationMap == old(locationMap)
    {
      isSpeaking := false;
      log := log + [Completed];
    }

    /**
     * onDone: the utterance is no longer pending; once nothing is pending, the
     * stored instruction runs on the clips now on disk and is cleared. An empty
     * list finishes at once.
     */
    method OnDone(utteranceId: string, onDisk: set<Clip>)
      modifies this
      ensures pendingUtterances == old(pendingUtterances) - {utteranceId}
      ensures pendingUtterances != {} ==>
        pendingInstruction == old(pendingInstruction) && log == old(log) && isSpeaking == old(isSpeaking)
      ensures pendingUtterances == {} ==> pendingInstruction == None
      ensures pendingUtterances == {} && old(pendingInstruction).None? ==>
        log == old(log) && isSpeaking == old(isSpeaking)
      ensures pendingUtterances == {} && old(pendingInstruction).Some? ==>
        var playable := Present(old(pendingInstruction).value, onDisk);
        if |playable| == 0 then !isSpeaking && log == old(log) + [Completed]
        else isSpeaking == old(isSpeaking) && log == old(log) + [Play(playable)]
      ensures isInitialized == old(isInitialized) && locationMap == old(locationMap)
    {
      pendingUtterances := pendingUtterances - {utteranceId};
      if pendingUtterances == {} {
        if pendingInstruction.Some? {
          var playable := Present(pendingInstruction.value, onDisk);
          if |playable| == 0 {
            isSpeaking := false;
            log := log + [Completed];
          } else {
            log := log + [Play(playable)];
          }
        }
        pendingInstruction := None;
      }
    }

    /** onError: the utterance is dropped from the pending set and nothing else happens. */
    method OnError(utteranceId: string)
      modifies this
      ensures pendingUtterances == old(pendingUtterances) - {utteranceId}
      ensures isInitialized == old(isInitialized) && isSpeaking == old(isSpeaking)
      ensures pendingInstruction == old(pendingInstruction) && locationMap == old(locationMap) && log == old(log)
    {
      pendingUtterances := pendingUtterances - {utteranceId};
    }
  }
}
