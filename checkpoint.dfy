/** The exclusion list (checkpoint) and the pending set computed from it
    (src/main.py:98-108, src/main.py:129-139). */
module Checkpoint {
  import opened Wrappers

  /** Loading the exclude file: a list that fails to decode, an empty file included,
      becomes the empty list; a decoded list is kept as it is, duplicates and order
      included (src/main.py:99-103, src/main.py:130-134). */
  function LoadExcluded(file: Decoded<seq<string>>): (excluded: seq<string>)
    ensures file.DecodeError? ==> excluded == []
    ensures file.Parsed? ==> excluded == file.value
  {
    match file
    case Parsed(refs) => refs
    case DecodeError => []
  }

  /** `set(universe) - set(excluded)` (src/main.py:108, src/main.py:139). */
  function Pending(universe: seq<string>, excluded: seq<string>): (pending: set<string>)
    ensures forall r :: r in pending <==> r in universe && r !in excluded
  {
    set r | r in universe && r !in excluded
  }

  /** No reference occurs twice. */
  predicate NoDup(refs: seq<string>)
  {
    forall i, j :: 0 <= i < j < |refs| ==> refs[i] != refs[j]
  }

  /** Appending a reference that is not there yet keeps a list duplicate-free. */
  lemma NoDupSnoc(refs: seq<string>, r: string)
    requires NoDup(refs) && r !in refs
    ensures NoDup(refs + [r])
  {
    var s := refs + [r];
    forall i, j | 0 <= i < j < |s| ensures s[i] != s[j] {
      if j == |refs| { assert s[i] == refs[i]; }
    }
  }

  /** The elements of a sequence, as a set. */
  function Elements(refs: seq<string>): (s: set<string>)
    ensures forall r :: r in s <==> r in refs
  {
    set r | r in refs
  }

  /** A list without duplicates has as many distinct elements as entries. */
  lemma {:induction false} NoDupCard(refs: seq<string>)
    requires NoDup(refs)
    ensures |Elements(refs)| == |refs|
  {
    if refs != [] {
      var last := refs[|refs| - 1];
      var init := refs[..|refs| - 1];
      assert NoDup(init);
      NoDupCard(init);
      assert refs == init + [last];
      assert last !in init;
      assert Elements(refs) == Elements(init) + {last};
    }
  }

  /** Corrupt checkpoint recovery: an exclude file that does not decode leaves every
      reference of the universe pending. */
  lemma CorruptCheckpointCoversUniverse(universe: seq<string>)
    ensures Pending(universe, LoadExcluded(DecodeError)) == Elements(universe)
  {
  }

  /** A reference already in the loaded exclusion list is never pending, and the
      pending set only shrinks as the list grows. */
  lemma PendingAntitone(universe: seq<string>, excluded: seq<string>, more: seq<string>)
    ensures Pending(universe, excluded + more) <= Pending(universe, excluded)
    ensures forall r :: r in excluded ==> r !in Pending(universe, excluded)
  {
  }

  /** Crash safety: once `done` has been appended to the checkpoint, a new run on the
      same universe has exactly the remaining references pending, `|done|` fewer. */
  lemma {:induction false} ResumeAfter(universe: seq<string>, excluded: seq<string>, done: seq<string>)
    requires NoDup(done)
    requires forall r :: r in done ==> r in Pending(universe, excluded)
    ensures Pending(universe, excluded + done) == Pending(universe, excluded) - Elements(done)
    ensures |Pending(universe, excluded + done)| == |Pending(universe, excluded)| - |done|
  {
    var before, after, gone := Pending(universe, excluded), Pending(universe, excluded + done), Elements(done);
    assert after == before - gone;
    assert gone <= before;
    assert before == after + gone && after * gone == {};
    NoDupCard(done);
  }
}
