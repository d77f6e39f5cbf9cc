/**
 * The generation history and its duplicate check (src/App.js, isCodeDuplicate).
 *
 * The history is the ordered list of `{content, timestamp}` records the
 * component appends to after each successful generation. The duplicate check
 * looks up the FIRST record whose content equals the candidate (Array.find)
 * and reports a duplicate iff that record is less than 24 hours old. The
 * current time is a parameter.
 */
module History {

  datatype Option<T> = None | Some(value: T)

  /** One generated code: its content and the time it was made, in milliseconds. */
  datatype HistoryEntry = HistoryEntry(content: string, timestamp: int)

  const MillisPerHour: int := 1000 * 60 * 60
  const WindowHours: int := 24
  /** 24 hours in milliseconds. */
  const WindowMillis: int := 86_400_000

  /**
   * Array.find: the index of the first record whose content equals `content`,
   * or None when there is none.
   */
  function FindFirst(history: seq<HistoryEntry>, content: string): (r: Option<nat>)
    ensures r.Some? ==> r.value < |history| && history[r.value].content == content
    ensures r.Some? ==> forall j :: 0 <= j < r.value ==> history[j].content != content
    ensures r.None? ==> forall j :: 0 <= j < |history| ==> history[j].content != content
  {
    if history == [] then None
    else if history[0].content == content then Some(0)
    else match FindFirst(history[1..], content)
      case None => None
      case Some(i) => Some(i + 1)
  }

  /**
   * The age test of isCodeDuplicate: the time difference divided into hours
   * and compared with 24. The division is taken exactly, in the reals.
   */
  predicate WithinWindow(now: int, timestamp: int) {
    ((now - timestamp) as real) / (MillisPerHour as real) < WindowHours as real
  }

  /** isCodeDuplicate: the first record with equal content, if any, is younger than 24 hours. */
  predicate IsCodeDuplicate(history: seq<HistoryEntry>, content: string, now: int) {
    match FindFirst(history, content)
    case None => false
    case Some(i) => WithinWindow(now, history[i].timestamp)
  }

  /** Dividing into hours and comparing with 24 is the strict millisecond comparison. */
  lemma WindowIsStrictMillisComparison(now: int, timestamp: int)
    ensures WithinWindow(now, timestamp) <==> now - timestamp < WindowMillis
  {
  }

  /**
   * The duplicate check answers true exactly when some record has equal
   * content, no earlier record does, and that first record is less than
   * 86,400,000 ms older than `now`. With no equal record it answers false.
   */
  lemma {:induction false} DuplicateCharacterisation(history: seq<HistoryEntry>, content: string, now: int)
    ensures IsCodeDuplicate(history, content, now) <==>
      exists i :: && 0 <= i < |history| && history[i].content == content
                  && (forall j :: 0 <= j < i ==> history[j].content != content)
                  && now - history[i].timestamp < WindowMillis
    ensures (forall j :: 0 <= j < |history| ==> history[j].content != content) ==>
      !IsCodeDuplicate(history, content, now)
  {
  }

  /** A record exactly 24 hours old does not block a resubmission. */
  lemma ExactlyOneDayIsNotDuplicate(history: seq<HistoryEntry>, content: string, now: int)
    requires FindFirst(history, content).Some?
    requires now == history[FindFirst(history, content).value].timestamp + WindowMillis
    ensures !IsCodeDuplicate(history, content, now)
  {
  }

  /**
   * Appending a record never changes the verdict for a content already in the
   * history: only the first equal record is ever consulted.
   */
  lemma {:induction false} FirstMatchIsStable(history: seq<HistoryEntry>, e: HistoryEntry, content: string, now: int)
    requires FindFirst(history, content).Some?
    ensures FindFirst(history + [e], content) == FindFirst(history, content)
    ensures IsCodeDuplicate(history + [e], content, now) == IsCodeDuplicate(history, content, now)
  {
    if history[0].content != content {
      assert (history + [e])[1..] == history[1..] + [e];
      FirstMatchIsStable(history[1..], e, content, now);
    }
  }

  // ---------------------------------------------------------------------------
  // What the duplicate check keeps true of the history.

  /** Record `f` is the first with its content. */
  ghost predicate IsFirstOccurrence(history: seq<HistoryEntry>, f: nat)
    requires f < |history|
  {
    forall j :: 0 <= j < f ==> history[j].content != history[f].content
  }

  /**
   * Every record made with the same content as an earlier one is at least 24
   * hours younger than the FIRST record with that content.
   */
  ghost predicate SpacedFromFirst(history: seq<HistoryEntry>) {
    forall f, k ::
      0 <= f < k < |history| && history[f].content == history[k].content && IsFirstOccurrence(history, f)
      ==> history[k].timestamp - history[f].timestamp >= WindowMillis
  }

  /** The first record with some content is the one the lookup finds. */
  lemma FindFirstFindsFirstOccurrence(history: seq<HistoryEntry>, f: nat)
    requires f < |history| && IsFirstOccurrence(history, f)
    ensures FindFirst(history, history[f].content) == Some(f)
  {
  }

  /**
   * Appending a record that the duplicate check lets through, stamped with the
   * time of the check, keeps SpacedFromFirst.
   */
  lemma {:induction false} AppendNonDuplicateKeepsSpacing(history: seq<HistoryEntry>, e: HistoryEntry)
    requires SpacedFromFirst(history)
    requires !IsCodeDuplicate(history, e.content, e.timestamp)
    ensures SpacedFromFirst(history + [e])
  {
    var h' := history + [e];
    forall f, k | 0 <= f < k < |h'| && h'[f].content == h'[k].content && IsFirstOccurrence(h', f)
      ensures h'[k].timestamp - h'[f].timestamp >= WindowMillis
    {
      assert h'[f] == history[f];
      assert IsFirstOccurrence(history, f) by {
        forall j | 0 <= j < f ensures history[j].content != history[f].content {
          assert h'[j] == history[j];
        }
      }
      if k < |history| {
        assert h'[k] == history[k];
      } else {
        assert h'[k] == e;
        FindFirstFindsFirstOccurrence(history, f);
        WindowIsStrictMillisComparison(e.timestamp, history[f].timestamp);
      }
    }
  }

  /**
   * No two records with equal content were made less than 24 hours apart: the
   * stronger rule one might expect the duplicate check to keep.
   */
  ghost predicate NoCloseRepeats(history: seq<HistoryEntry>) {
    forall i, j :: 0 <= i < j < |history| && history[i].content == history[j].content
      ==> history[j].timestamp - history[i].timestamp >= WindowMillis
  }

  /**
   * The first-match rule does not keep NoCloseRepeats: starting from an empty
   * history, a first submission and a resubmission exactly 24 hours later are
   * both let through, and then a third submission 1 ms after that is checked
   * against the oldest record only and is let through, although a record with
   * the same content is 1 ms old.
   */
  lemma FirstMatchAdmitsCloseRepeat()
    ensures !IsCodeDuplicate([], "a@b.co", 0)
    ensures !IsCodeDuplicate([HistoryEntry("a@b.co", 0)], "a@b.co", WindowMillis)
    ensures var h := [HistoryEntry("a@b.co", 0), HistoryEntry("a@b.co", WindowMillis)];
      && NoCloseRepeats(h)
      && !IsCodeDuplicate(h, "a@b.co", WindowMillis + 1)
      && !NoCloseRepeats(h + [HistoryEntry("a@b.co", WindowMillis + 1)])
  {
    ExactlyOneDayIsNotDuplicate([HistoryEntry("a@b.co", 0)], "a@b.co", WindowMillis);
    var h := [HistoryEntry("a@b.co", 0), HistoryEntry("a@b.co", WindowMillis)];
    assert FindFirst(h, "a@b.co") == Some(0);
    WindowIsStrictMillisComparison(WindowMillis + 1, 0);
    var h' := h + [HistoryEntry("a@b.co", WindowMillis + 1)];
    assert h'[1].content == h'[2].content && h'[2].timestamp - h'[1].timestamp < WindowMillis;
  }
}
