/** The integer codes of the mine field's public interface: the four values a
    cell status takes and the four actions a player can ask for. */
module Codes {

  const STATUS_NEW: int := 0
  const STATUS_REVEALED: int := 1
  const STATUS_FLAGGED: int := 2
  const STATUS_QUESTION: int := 3

  const ACTION_CLEAR: int := 0
  const ACTION_REVEAL: int := 1
  const ACTION_FLAG: int := 2
  const ACTION_QUESTION: int := 3

  /** The values the status grid may hold. */
  predicate IsStatus(s: int) {
    s == STATUS_NEW || s == STATUS_REVEALED || s == STATUS_FLAGGED || s == STATUS_QUESTION
  }

  /** The actions the engine carries out. */
  predicate IsAction(a: int) {
    a == ACTION_CLEAR || a == ACTION_REVEAL || a == ACTION_FLAG || a == ACTION_QUESTION
  }

  /** The action codes are contiguous, so the engine's range check
      `ACTION_CLEAR <= a <= ACTION_QUESTION` admits exactly the four actions;
      the four status codes are pairwise distinct. */
  lemma CodesWellFormed(a: int)
    ensures IsAction(a) <==> ACTION_CLEAR <= a <= ACTION_QUESTION
    ensures |{STATUS_NEW, STATUS_REVEALED, STATUS_FLAGGED, STATUS_QUESTION}| == 4
  {
  }

  /** The status a marking action writes on a cell that is not yet revealed. */
  function MarkFor(action: int): (s: int)
    requires action == ACTION_CLEAR || action == ACTION_FLAG || action == ACTION_QUESTION
    ensures IsStatus(s) && s != STATUS_REVEALED
    ensures action == ACTION_CLEAR <==> s == STATUS_NEW
    ensures action == ACTION_FLAG <==> s == STATUS_FLAGGED
  {
    if action == ACTION_CLEAR then STATUS_NEW
    else if action == ACTION_FLAG then STATUS_FLAGGED
    else STATUS_QUESTION
  }
}
