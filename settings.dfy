/**
 * The policy the user edits in the side panel: which tag categories count as
 * sensitive and the list of custom words. The page keeps both as mutable
 * globals that its click handlers update in place.
 */
module Settings {
  import opened Text
  import opened Classifier

  /** The tag categories the panel offers, in display order. */
  const AllPosTypes: seq<string> := [
    "AtMention", "Date", "Demonym", "Email", "HashTag", "Organization",
    "Person", "PhoneNumber", "Place", "Url", "Value"
  ]

  /** The categories as a set. */
  const AllCategories: set<string> := set i | 0 <= i < |AllPosTypes| :: AllPosTypes[i]

  /** A custom-word list as the add handler builds it: keys only, none listed twice. */
  predicate WordList(ws: seq<string>) {
    && (forall i :: 0 <= i < |ws| ==> IsKey(ws[i]))
    && (forall i, j :: 0 <= i < j < |ws| ==> ws[i] != ws[j])
  }

  /** The enabled categories once `name` is toggled. */
  function Toggle(enabled: set<string>, name: string): (r: set<string>)
    ensures name in r <==> name !in enabled
    ensures forall other :: other != name ==> (other in r <==> other in enabled)
  {
    if name in enabled then enabled - {name} else enabled + {name}
  }

  /** Toggling a category twice gives back the categories it started from. */
  lemma ToggleTwice(enabled: set<string>, name: string)
    ensures Toggle(Toggle(enabled, name), name) == enabled
  {
    var once := Toggle(enabled, name);
    var twice := Toggle(once, name);
    assert forall x :: x in twice <==> x in enabled;
  }

  /** The list once `raw` is added: its trimmed, lower-cased form goes at the end unless it is empty or already listed. */
  function Added(ws: seq<string>, raw: string): seq<string> {
    var w := Normalize(raw);
    if w != [] && w !in ws then ws + [w] else ws
  }

  /**
   * Adding keeps the list well formed, lists the key of `raw` unless that key is
   * empty, and keeps every word already listed, in place. Nothing else is
   * appended: the list grows by one exactly when the key is new and non-empty.
   */
  lemma AddedWordList(ws: seq<string>, raw: string)
    requires WordList(ws)
    ensures WordList(Added(ws, raw))
    ensures Normalize(raw) != [] <==> Normalize(raw) in Added(ws, raw)
    ensures ws <= Added(ws, raw)
    ensures |Added(ws, raw)| == |ws| + (if Normalize(raw) != [] && Normalize(raw) !in ws then 1 else 0)
  {
    var w := Normalize(raw);
    if w != [] && w !in ws {
      var r := ws + [w];
      NormalizeIsKey(raw);
      forall i | 0 <= i < |r|
        ensures IsKey(r[i])
      {
        if i < |ws| {
          assert r[i] == ws[i];
        }
      }
      forall i, j | 0 <= i < j < |r|
        ensures r[i] != r[j]
      {
        if j == |ws| {
          assert r[i] == ws[i] && r[j] == w;
        }
      }
      assert r[|ws|] == w;
    }
  }

  /** Adding the same word again, in any case and with any padding, changes nothing. */
  lemma AddedIdempotent(ws: seq<string>, raw: string, again: string, before: string, after: string)
    requires AllWhite(before) && AllWhite(after)
    requires ToLower(again) == ToLower(before + raw + after)
    ensures Added(Added(ws, raw), again) == Added(ws, raw)
  {
    NormalizeIgnoresCase(again, before + raw + after);
    NormalizeIgnoresPadding(before, raw, after);
  }

  /** The list with the word at `idx` taken out; an index past the end removes nothing. */
  function RemovedAt(ws: seq<string>, idx: nat): (r: seq<string>)
    ensures idx < |ws| ==> |r| == |ws| - 1
    ensures idx >= |ws| ==> r == ws
  {
    if idx < |ws| then ws[..idx] + ws[idx + 1..] else ws
  }

  /**
   * Removal keeps the list well formed and takes out exactly one copy of the
   * word; since no word is listed twice, the removed word is gone.
   */
  lemma RemovedAtWordList(ws: seq<string>, idx: nat)
    requires WordList(ws)
    ensures WordList(RemovedAt(ws, idx))
    ensures idx < |ws| ==> ws[idx] !in RemovedAt(ws, idx)
    ensures idx < |ws| ==> multiset(RemovedAt(ws, idx)) == multiset(ws) - multiset{ws[idx]}
  {
    if idx < |ws| {
      RemovedAtKeys(ws, idx);
      RemovedAtDistinct(ws, idx);
      RemovedAtMultiset(ws, idx);
    }
  }

  /** The words before `idx` keep their place and the words after it move up by one. */
  lemma RemovedAtIndex(ws: seq<string>, idx: nat)
    requires idx < |ws|
    ensures forall k :: 0 <= k < |RemovedAt(ws, idx)| ==>
      RemovedAt(ws, idx)[k] == if k < idx then ws[k] else ws[k + 1]
  {
    var r := RemovedAt(ws, idx);
    forall k | 0 <= k < |r|
      ensures r[k] == if k < idx then ws[k] else ws[k + 1]
    {
      if k < idx {
        assert r[k] == ws[..idx][k];
      } else {
        assert r[k] == ws[idx + 1..][k - idx];
      }
    }
  }

  lemma RemovedAtKeys(ws: seq<string>, idx: nat)
    requires idx < |ws|
    requires forall i :: 0 <= i < |ws| ==> IsKey(ws[i])
    ensures forall i :: 0 <= i < |RemovedAt(ws, idx)| ==> IsKey(RemovedAt(ws, idx)[i])
  {
    var r := RemovedAt(ws, idx);
    RemovedAtIndex(ws, idx);
    forall i | 0 <= i < |r|
      ensures IsKey(r[i])
    {
      var i' := if i < idx then i else i + 1;
      assert r[i] == ws[i'];
    }
  }

  lemma RemovedAtDistinct(ws: seq<string>, idx: nat)
    requires idx < |ws|
    requires forall i, j :: 0 <= i < j < |ws| ==> ws[i] != ws[j]
    ensures forall i, j :: 0 <= i < j < |RemovedAt(ws, idx)| ==> RemovedAt(ws, idx)[i] != RemovedAt(ws, idx)[j]
    ensures ws[idx] !in RemovedAt(ws, idx)
  {
    var r := RemovedAt(ws, idx);
    RemovedAtIndex(ws, idx);
    forall i, j | 0 <= i < j < |r|
      ensures r[i] != r[j]
    {
      var i' := if i < idx then i else i + 1;
      var j' := if j < idx then j else j + 1;
      assert r[i] == ws[i'] && r[j] == ws[j'] && i' < j';
    }
  }

  lemma RemovedAtMultiset(ws: seq<string>, idx: nat)
    requires idx < |ws|
    ensures multiset(RemovedAt(ws, idx)) == multiset(ws) - multiset{ws[idx]}
  {
    assert ws == ws[..idx] + [ws[idx]] + ws[idx + 1..];
  }

  /** A token is sensitive under an empty custom-word list only through its tags or a secondary tagger. */
  lemma NoCustomWords(enabled: set<string>, taggers: seq<Tagger>, t: Token)
    ensures IsSensitive(Criteria(enabled, [], taggers), t) <==>
      && !AllWhite(t.text)
      && (|| (exists i :: 0 <= i < |t.tags| && t.tags[i] in enabled)
          || (exists i :: 0 <= i < |taggers| && TaggerHit(taggers[i], t.text, enabled)))
  {
    IsSensitiveRules(Criteria(enabled, [], taggers), t);
  }

  /**
   * Adding a word never unflags a token, and flags every token whose word
   * has the same key as the added one.
   */
  lemma AddedFlags(enabled: set<string>, ws: seq<string>, taggers: seq<Tagger>, raw: string, t: Token)
    requires WordList(ws)
    ensures IsSensitive(Criteria(enabled, ws, taggers), t) ==> IsSensitive(Criteria(enabled, Added(ws, raw), taggers), t)
    ensures Normalize(t.text) == Normalize(raw) != [] ==> IsSensitive(Criteria(enabled, Added(ws, raw), taggers), t)
  {
    var c := Criteria(enabled, ws, taggers);
    AddedWordList(ws, raw);
    if IsSensitive(c, t) {
      IsSensitiveMonotone(c, enabled, Added(ws, raw), t);
    }
  }

  /** The mutable policy of the page. */
  class Policy {
    /** `enabledPOS`. */
    var enabled: set<string>
    /** `customWords`. */
    var customWords: seq<string>

    ghost predicate Valid()
      reads this
    {
      enabled <= AllCategories && WordList(customWords)
    }

    /** The initial policy: every category enabled, no custom words. */
    constructor()
      ensures Valid()
      ensures enabled == AllCategories && customWords == []
    {
      enabled := AllCategories;
      customWords := [];
    }

    /** A click on a category chip. */
    method ToggleCategory(name: string)
      requires Valid() && name in AllCategories
      modifies this
      ensures Valid()
      ensures enabled == Toggle(old(enabled), name)
      ensures customWords == old(customWords)
    {
      if name in enabled {
        enabled := enabled - {name};
      } else {
        enabled := enabled + {name};
      }
    }

    /** A click on the remove mark of the chip at `idx`. */
    method RemoveCustomWordAt(idx: nat)
      requires Valid()
      modifies this
      ensures Valid()
      ensures customWords == RemovedAt(old(customWords), idx)
      ensures enabled == old(enabled)
    {
      RemovedAtWordList(customWords, idx);
      if idx < |customWords| {
        customWords := customWords[..idx] + customWords[idx + 1..];
      }
    }

    /** `addCustomWord`. */
    method AddCustomWord(raw: string)
      requires Valid()
      modifies this
      ensures Valid()
      ensures customWords == Added(old(customWords), raw)
      ensures enabled == old(enabled)
    {
      AddedWordList(customWords, raw);
      var w := Normalize(raw);
      if w != [] && w !in customWords {
        customWords := customWords + [w];
      }
    }

    /** The confirmed "clear all" button. */
    method ClearCustomWords()
      requires Valid()
      modifies this
      ensures Valid()
      ensures customWords == [] && enabled == old(enabled)
    {
      customWords := [];
    }
  }
}
