/**
 * The numbering triggers of backend/nlp/pixel_distribute.py. A ModeTrigger
 * holds the section-header phrases not yet seen; numbering for its section
 * may start once all of them have turned up. CommonTrigger owns one trigger
 * per section and picks the one for a candidate question number.
 */
module Trigger {
  import opened Wrappers
  import opened Text
  import opened Base

  /** The keys that do not occur in `text`; the others are now seen. */
  function Remaining(keys: set<string>, text: string): (r: set<string>)
    ensures r <= keys
    ensures forall k :: k in keys && IsSubstring(k, text) ==> k !in r
    ensures forall k :: k in keys && !IsSubstring(k, text) ==> k in r
  {
    set k | k in keys && !IsSubstring(k, text)
  }

  class ModeTrigger {
    var hitKeys: set<string>

    constructor (keys: set<string>)
      ensures hitKeys == keys
    {
      hitKeys := keys;
    }

    /**
     * `shall_we_start`: None leaves the keys as they are and answers no;
     * otherwise the keys found in `text` are dropped and the answer is
     * whether none is left.
     */
    method ShallWeStart(text: Option<string>) returns (start: bool)
      modifies this
      ensures text == None ==> hitKeys == old(hitKeys) && !start
      ensures text.Some? ==> hitKeys == Remaining(old(hitKeys), text.value)
      ensures text.Some? ==> (start <==> hitKeys == {})
    {
      if text == None {
        return false;
      }
      if |hitKeys| > 0 {
        hitKeys := Remaining(hitKeys, text.value);
      }
      start := |hitKeys| == 0;
    }
  }

  /** The keys left after a trigger has been consulted on each text in turn. */
  function RunKeys(keys: set<string>, texts: seq<string>): set<string>
    decreases |texts|
  {
    if texts == [] then keys else Remaining(RunKeys(keys, texts[..|texts| - 1]), texts[|texts| - 1])
  }

  predicate SeenIn(k: string, texts: seq<string>) {
    exists i :: 0 <= i < |texts| && IsSubstring(k, texts[i])
  }

  /**
   * Consulting a trigger on a series of texts leaves exactly the keys none of
   * those texts contains, whatever their order and however a header is split
   * over several texts.
   */
  lemma {:induction false} RunKeysUnseen(keys: set<string>, texts: seq<string>)
    ensures RunKeys(keys, texts) == set k | k in keys && !SeenIn(k, texts)
  {
    if texts != [] {
      var pre := texts[..|texts| - 1];
      RunKeysUnseen(keys, pre);
      forall k | k in keys
        ensures SeenIn(k, texts) <==> SeenIn(k, pre) || IsSubstring(k, texts[|texts| - 1])
      {
        if SeenIn(k, pre) {
          var i :| 0 <= i < |pre| && IsSubstring(k, pre[i]);
          assert texts[i] == pre[i];
        }
        if SeenIn(k, texts) {
          var i :| 0 <= i < |texts| && IsSubstring(k, texts[i]);
          if i < |pre| {
            assert pre[i] == texts[i];
          }
        }
      }
    }
  }

  /** The trigger answers yes after a series of texts iff every key occurs in one of them. */
  lemma StartsIffAllSeen(keys: set<string>, texts: seq<string>)
    ensures RunKeys(keys, texts) == {} <==> forall k :: k in keys ==> SeenIn(k, texts)
  {
    RunKeysUnseen(keys, texts);
    if RunKeys(keys, texts) == {} {
      forall k | k in keys ensures SeenIn(k, texts) {
        assert k !in RunKeys(keys, texts);
      }
    }
  }

  /** Once no key is left none ever comes back: the yes is sticky. */
  lemma {:induction false} StickyStart(keys: set<string>, texts: seq<string>, more: seq<string>)
    requires RunKeys(keys, texts) == {}
    ensures RunKeys(keys, texts + more) == {}
  {
    if more != [] {
      var m := more[..|more| - 1];
      StickyStart(keys, texts, m);
      assert (texts + more)[..|texts + more| - 1] == texts + m;
    } else {
      assert texts + more == texts;
    }
  }

  /** The key set never grows. */
  lemma {:induction false} RunKeysShrink(keys: set<string>, texts: seq<string>, more: seq<string>)
    ensures RunKeys(keys, texts + more) <= RunKeys(keys, texts) <= keys
  {
    if more == [] {
      assert texts + more == texts;
      if texts != [] {
        RunKeysShrink(keys, texts[..|texts| - 1], [texts[|texts| - 1]]);
        assert texts[..|texts| - 1] + [texts[|texts| - 1]] == texts;
      }
    } else {
      var m := more[..|more| - 1];
      RunKeysShrink(keys, texts, m);
      assert (texts + more)[..|texts + more| - 1] == texts + m;
    }
  }

  /** `CommonTrigger.static_number_2_mode`: questions up to 10 choose, up to 16 fill in, then solve. */
  function NumberToMode(n: int): (m: Mode)
    ensures m == Choose <==> n <= 10
    ensures m == FillIn <==> 10 < n <= 16
    ensures m == Solve <==> 16 < n
  {
    if n <= 10 then Choose else if n <= 16 then FillIn else Solve
  }

  /** A numbered cell's `type()` is the mode of its number. */
  lemma CellTypeAgrees(c: OcrCell)
    requires c.number.Some?
    ensures CellType(c) == Some(NumberToMode(c.number.value))
  {
  }

  /** The header phrases of the three sections (`static_*_hit_keys`). */
  const ChooseKeys: set<string> := {"选择题", "共10小题", "每小题3分"}
  const FillInKeys: set<string> := {"填空题", "共6小题", "每小题3分"}
  const SolveKeys: set<string> := {"解答题", "共8小题"}

  /** The remaining keys of the three section triggers. */
  datatype TriggerKeys = TriggerKeys(choose: set<string>, fillIn: set<string>, solve: set<string>) {
    function Of(m: Mode): set<string> {
      match m
      case Choose => choose
      case FillIn => fillIn
      case Solve => solve
    }

    function With(m: Mode, ks: set<string>): (r: TriggerKeys)
      ensures r.Of(m) == ks
      ensures forall m' :: m' != m ==> r.Of(m') == Of(m')
    {
      match m
      case Choose => this.(choose := ks)
      case FillIn => this.(fillIn := ks)
      case Solve => this.(solve := ks)
    }
  }

  class CommonTrigger {
    const choose: ModeTrigger
    const fillIn: ModeTrigger
    const solve: ModeTrigger

    /** The three triggers are distinct objects (`instance_dic` holds three). */
    predicate Valid()
      reads this
    {
      choose != fillIn && fillIn != solve && choose != solve
    }

    constructor ()
      ensures Valid() && fresh(choose) && fresh(fillIn) && fresh(solve)
      ensures Keys() == TriggerKeys(ChooseKeys, FillInKeys, SolveKeys)
    {
      choose := new ModeTrigger(ChooseKeys);
      fillIn := new ModeTrigger(FillInKeys);
      solve := new ModeTrigger(SolveKeys);
    }

    function Instance(m: Mode): ModeTrigger
      reads this
    {
      match m
      case Choose => choose
      case FillIn => fillIn
      case Solve => solve
    }

    /** `aim`: the shared trigger of the section the number falls in. */
    function Aim(n: int): (t: ModeTrigger)
      reads this
      ensures t == Instance(NumberToMode(n))
      ensures t == choose || t == fillIn || t == solve
    {
      Instance(NumberToMode(n))
    }

    function Keys(): TriggerKeys
      reads this, choose, fillIn, solve
    {
      TriggerKeys(choose.hitKeys, fillIn.hitKeys, solve.hitKeys)
    }

    /**
     * `aim(n).shall_we_start(text)`: the trigger of n's section reads the
     * text, and says yes once all its keys have been met; the other two
     * triggers are left alone.
     */
    method ShallWeStartAt(n: int, text: string) returns (start: bool)
      requires Valid()
      modifies choose, fillIn, solve
      ensures var m := NumberToMode(n);
        && Keys() == old(Keys()).With(m, Remaining(old(Keys()).Of(m), text))
        && (start <==> Keys().Of(m) == {})
    {
      var t := Aim(n);
      start := t.ShallWeStart(Some(text));
    }

    /** Two numbers share a trigger instance exactly when they share a section. */
    lemma AimShared(a: int, b: int)
      requires Valid()
      ensures Aim(a) == Aim(b) <==> NumberToMode(a) == NumberToMode(b)
    {
    }
  }
}
