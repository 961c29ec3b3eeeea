/**
 * The scores store: the last score per quiz with the time it was taken, read
 * back from local storage on load (normalising bare values), and recorded
 * after a play.  The clock is a parameter (`now`).
 */
module Scores {
  import opened Wrappers
  import opened StoredJson

  /** The scores, by quiz id. */
  type ScoreState = map<string, Json>

  /** The record `recordScore` writes: `{ value, takenAt }`. */
  function ScoreRecord(value: Json, now: int): (r: Json)
    ensures r.JObject? && r.fields.Keys == {"value", "takenAt"}
    ensures r.fields["value"] == value && r.fields["takenAt"] == JNumber(now)
  {
    JObject(map["value" := value, "takenAt" := JNumber(now)])
  }

  /** One stored value on load: an object (or array) stays as it is; anything else becomes a record taken now. */
  function NormaliseScore(v: Json, now: int): (r: Json)
    ensures IsObject(r)
    ensures IsObject(v) ==> r == v
    ensures !IsObject(v) ==> r == ScoreRecord(v, now)
  {
    if IsObject(v) then v else ScoreRecord(v, now)
  }

  /** Normalising is idempotent: a normalised value is never wrapped again, whenever it is read. */
  lemma NormaliseIdempotent(v: Json, now: int, later: int)
    ensures NormaliseScore(NormaliseScore(v, now), later) == NormaliseScore(v, now)
  {
  }

  /**
   * `readInitialScores`: `{}` without a window, without stored text, when the
   * text does not parse or when `Object.entries` throws (`null`); otherwise
   * every property normalised under the same key.
   */
  function ReadInitialScores(hasWindow: bool, stored: Stored, now: int): (r: ScoreState)
    ensures !hasWindow || !stored.Parsed? || stored.value.JNull? ==> r == map[]
    ensures hasWindow && stored.Parsed? && !stored.value.JNull? ==>
              var entries := Entries(stored.value).value;
              && r.Keys == entries.Keys
              && forall k :: k in r ==> r[k] == NormaliseScore(entries[k], now)
  {
    if !hasWindow then map[]
    else match stored
      case NothingStored => map[]
      case Unparsable => map[]
      case Parsed(v) =>
        match Entries(v)
        case None => map[]
        case Some(entries) => map k | k in entries :: NormaliseScore(entries[k], now)
  }

  /** `recordScore`: the quiz's entry becomes the new record; every other entry stays. */
  function RecordScore(scores: ScoreState, quizId: string, value: Json, now: int): (r: ScoreState)
    ensures r.Keys == scores.Keys + {quizId}
    ensures r[quizId] == ScoreRecord(value, now)
    ensures forall k :: k in scores && k != quizId ==> r[k] == scores[k]
  {
    scores[quizId := ScoreRecord(value, now)]
  }

  /** Every entry is an object, as after a load or a record. */
  predicate AllRecords(scores: ScoreState) {
    forall k :: k in scores ==> IsObject(scores[k])
  }

  /** Loading and recording leave only objects in the store. */
  lemma StoreHoldsRecords(hasWindow: bool, stored: Stored, now: int, scores: ScoreState, quizId: string, value: Json)
    ensures AllRecords(ReadInitialScores(hasWindow, stored, now))
    ensures AllRecords(scores) ==> AllRecords(RecordScore(scores, quizId, value, now))
  {
  }

  /** A store of records written to local storage and read back on the next load is the same store, whatever the time. */
  lemma {:induction false} ReloadKeepsScores(scores: ScoreState, later: int)
    requires AllRecords(scores)
    ensures ReadInitialScores(true, Parsed(JObject(scores)), later) == scores
  {
    var r := ReadInitialScores(true, Parsed(JObject(scores)), later);
    assert r.Keys == scores.Keys;
    forall k | k in r ensures r[k] == scores[k] {
      assert IsObject(scores[k]);
    }
  }
}
