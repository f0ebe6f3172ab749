/**
  The admission rules of the attendance camera (scripts/control_asistencia.py):
  the decision whether a recognised person may produce a new log row, and the
  keyboard-driven selection of the mode.

  Modes and events are kept as the raw strings the script compares, so that a
  mode other than the three known ones, and a cached event other than `IN` or
  `OUT` (the cache holds whatever the log's `evento` column says), are
  represented exactly.
*/
module Admission {
  import opened Wrappers

  const IN := "IN"
  const OUT := "OUT"
  const NONE := "NONE"

  /** The denial reasons, as the script spells them. */
  const REASON_NONE := "modo NONE"
  const REASON_DUPLICATE_IN := "IN duplicado hoy"
  const REASON_DUPLICATE_OUT := "OUT duplicado hoy"
  const REASON_OUT_WITHOUT_IN := "OUT sin IN previo hoy"
  const REASON_UNKNOWN_MODE := "modo desconocido"

  /** The pair `(ok, motivo)` returned by the decision function. */
  datatype Verdict = Verdict(ok: bool, reason: Option<string>)

  /** The event kinds a mode can write, i.e. the modes that may admit anything. */
  predicate Admitting(mode: string) {
    mode == IN || mode == OUT
  }

  /**
    The decision table: may a person whose last event today is `last`
    (`None` when there is none) be logged in mode `mode`?
  */
  function CanRegister(mode: string, last: Option<string>): (v: Verdict)
    // an allow never carries a reason, a deny always does
    ensures v.ok <==> v.reason.None?
    // the admitted cases, both directions
    ensures v.ok <==>
      (mode == IN && last != Some(IN)) || (mode == OUT && last.Some? && last != Some(OUT))
    // which reason each denial gives
    ensures mode == NONE ==> v.reason == Some(REASON_NONE)
    ensures !Admitting(mode) && mode != NONE ==> v.reason == Some(REASON_UNKNOWN_MODE)
    ensures mode == IN && last == Some(IN) ==> v.reason == Some(REASON_DUPLICATE_IN)
    ensures mode == OUT && last == Some(OUT) ==> v.reason == Some(REASON_DUPLICATE_OUT)
    ensures mode == OUT && last.None? ==> v.reason == Some(REASON_OUT_WITHOUT_IN)
  {
    if mode == NONE then Verdict(false, Some(REASON_NONE))
    else if mode == IN then
      if last == Some(IN) then Verdict(false, Some(REASON_DUPLICATE_IN))
      else Verdict(true, None)
    else if mode == OUT then
      if last == Some(OUT) then Verdict(false, Some(REASON_DUPLICATE_OUT))
      else if last.None? then Verdict(false, Some(REASON_OUT_WITHOUT_IN))
      else Verdict(true, None)
    else Verdict(false, Some(REASON_UNKNOWN_MODE))
  }

  /** The mode the loop starts in. */
  const INITIAL_MODE := NONE

  /** Key codes of the control keys (`ord(...)` in the script). */
  const KEY_IN := 'i' as int
  const KEY_OUT := 'o' as int
  const KEY_NONE := 'n' as int
  const KEY_QUIT := 'q' as int

  /**
    `cv2.waitKey(1) & 0xFF`: Python's `&` on a possibly negative int (waitKey
    answers -1 when no key was pressed) keeps the low eight bits of the
    two's-complement value, which is the non-negative remainder modulo 256.
  */
  function KeyCode(raw: int): (k: int)
    ensures 0 <= k < 256
    ensures (raw - k) % 256 == 0
    ensures 0 <= raw < 256 ==> k == raw
  {
    raw % 256
  }

  /** The mode after key `k`: `i`, `o` and `n` select a mode, every other key keeps it. */
  function SetModeFromKey(k: int, mode: string): (m: string)
    ensures k == KEY_IN ==> m == IN
    ensures k == KEY_OUT ==> m == OUT
    ensures k == KEY_NONE ==> m == NONE
    ensures k !in {KEY_IN, KEY_OUT, KEY_NONE} ==> m == mode
  {
    if k == KEY_IN then IN
    else if k == KEY_OUT then OUT
    else if k == KEY_NONE then NONE
    else mode
  }

  /** The modes the loop can be in: the three the keys select. */
  predicate KnownMode(mode: string) {
    mode == IN || mode == OUT || mode == NONE
  }

  /** The mode after a sequence of key presses, starting from `mode`. */
  function ModeAfterKeys(keys: seq<int>, mode: string): string
    decreases |keys|
  {
    if |keys| == 0 then mode
    else ModeAfterKeys(keys[1..], SetModeFromKey(keys[0], mode))
  }

  /**
    Whatever keys are pressed, the mode stays one of the three known ones, so
    the "unknown mode" denial cannot happen in the running loop.
  */
  lemma {:induction false} KeysKeepModeKnown(keys: seq<int>, mode: string)
    requires KnownMode(mode)
    ensures KnownMode(ModeAfterKeys(keys, mode))
    ensures forall last :: CanRegister(ModeAfterKeys(keys, mode), last).reason != Some(REASON_UNKNOWN_MODE)
    decreases |keys|
  {
    if |keys| > 0 {
      KeysKeepModeKnown(keys[1..], SetModeFromKey(keys[0], mode));
    }
  }

  /** Pressing the same key twice has the effect of pressing it once. */
  lemma SetModeIdempotent(k: int, mode: string)
    ensures SetModeFromKey(k, SetModeFromKey(k, mode)) == SetModeFromKey(k, mode)
  {
  }

  /** Keys `i`, `o` and `n`: the ones that choose a mode. */
  predicate IsModeKey(k: int) {
    k in {KEY_IN, KEY_OUT, KEY_NONE}
  }

  /** No key of `keys` from index `from` on is a mode key. */
  predicate NoModeKeyFrom(keys: seq<int>, from: nat) {
    forall k :: from <= k < |keys| ==> !IsModeKey(keys[k])
  }

  /**
    The mode after a run of keys is the one chosen by the last mode key in it,
    or the starting mode when the run has none.
  */
  lemma {:induction false} LastModeKeyWins(keys: seq<int>, mode: string)
    ensures NoModeKeyFrom(keys, 0) ==> ModeAfterKeys(keys, mode) == mode
    ensures forall j :: 0 <= j < |keys| && IsModeKey(keys[j]) && NoModeKeyFrom(keys, j + 1) ==>
      ModeAfterKeys(keys, mode) == SetModeFromKey(keys[j], mode)
    ensures |keys| > 0 && IsModeKey(keys[|keys| - 1]) ==>
      ModeAfterKeys(keys, mode) == SetModeFromKey(keys[|keys| - 1], mode)
    decreases |keys|
  {
    if |keys| > 0 {
      var rest := keys[1..];
      var m1 := SetModeFromKey(keys[0], mode);
      LastModeKeyWins(rest, m1);
      assert NoModeKeyFrom(keys, 0) ==> NoModeKeyFrom(rest, 0) by {
        forall k | 0 <= k < |rest| ensures rest[k] == keys[k + 1] { }
      }
      forall j | 0 <= j < |keys| && IsModeKey(keys[j]) && NoModeKeyFrom(keys, j + 1)
        ensures ModeAfterKeys(keys, mode) == SetModeFromKey(keys[j], mode)
      {
        assert NoModeKeyFrom(rest, j) by {
          forall k | j <= k < |rest| ensures !IsModeKey(rest[k]) {
            assert rest[k] == keys[k + 1];
          }
        }
        if j > 0 {
          assert rest[j - 1] == keys[j];
        }
      }
      assert |keys| > 0 && IsModeKey(keys[|keys| - 1]) ==> NoModeKeyFrom(keys, |keys|);
    }
  }
}
