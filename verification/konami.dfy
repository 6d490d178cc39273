/** The Konami-code easter egg of main.js: every keydown appends the key to a
    buffer, the buffer keeps only its last ten entries, and the effect fires
    when the buffer's concatenation equals the concatenation of the code. */
module Konami {

  /** The ten `KeyboardEvent.key` values of the code, in order. */
  const Target: seq<string> := ["ArrowUp", "ArrowUp", "ArrowDown", "ArrowDown", "ArrowLeft",
                                "ArrowRight", "ArrowLeft", "ArrowRight", "b", "a"]

  /** How many of the most recent keys the buffer keeps (`slice(-10)`). */
  const Window: nat := 10

  /** The six distinct key names the code is spelled with. */
  const KeyNames: seq<string> := ["ArrowUp", "ArrowDown", "ArrowLeft", "ArrowRight", "b", "a"]

  /** `keys.join('')`: the keys concatenated in order, with no separator. */
  function Join(keys: seq<string>): string
  {
    if |keys| == 0 then "" else keys[0] + Join(keys[1..])
  }

  /** `s.slice(-n)` for a positive `n`: the last `n` elements, or all of `s`
      when it is shorter. */
  function LastN<T>(s: seq<T>, n: nat): (r: seq<T>)
    requires n > 0
    ensures |r| == if |s| < n then |s| else n
    ensures r == s[|s| - |r|..]
  {
    if |s| <= n then s else s[|s| - n..]
  }

  /** The detector's only state: the buffer `konamiCode`. */
  datatype Detector = Detector(buffer: seq<string>)

  /** The detector before any key has been pressed. */
  const Initial: Detector := Detector([])

  /** What one keydown leaves behind: the new buffer, and whether the effect fired. */
  datatype KeyResult = KeyResult(detector: Detector, fired: bool)

  /** The comparison of the handler: concatenations, not element by element. */
  predicate Matches(buffer: seq<string>)
  {
    Join(buffer) == Join(Target)
  }

  /** `konamiCode.push(key)` followed by `konamiCode.slice(-10)`: the key is
      appended and only the last ten entries are kept. */
  function Push(buffer: seq<string>, key: string): seq<string>
  {
    LastN(buffer + [key], Window)
  }

  /** After a push the buffer ends with the new key, preceded by the last
      nine entries of the old buffer, so it grows by one up to ten entries. */
  lemma PushShape(buffer: seq<string>, key: string)
    ensures var r := Push(buffer, key);
            && |r| == (if |buffer| < Window then |buffer| + 1 else Window)
            && r[|r| - 1] == key
            && r[..|r| - 1] == LastN(buffer, Window - 1)
  {
  }

  /** One keydown: push the key, then fire when the buffer matches. */
  function KeyDown(d: Detector, key: string): KeyResult
  {
    var kept := Push(d.buffer, key);
    KeyResult(Detector(kept), Matches(kept))
  }

  /** The detector after a history of keydowns, oldest first. */
  function Feed(keys: seq<string>): Detector
  {
    if |keys| == 0 then Initial
    else Detector(Push(Feed(keys[..|keys| - 1]).buffer, keys[|keys| - 1]))
  }

  /** Whether the last keydown of a non-empty history fired the effect. */
  predicate FiredOnLast(keys: seq<string>)
    requires |keys| > 0
  {
    KeyDown(Feed(keys[..|keys| - 1]), keys[|keys| - 1]).fired
  }

  /** Keeping the last n of (the last n of p) followed by one more key is
      keeping the last n of p followed by that key. */
  lemma LastNPush<T>(p: seq<T>, k: T, n: nat)
    requires n > 0
    ensures LastN(LastN(p, n) + [k], n) == LastN(p + [k], n)
  {
  }

  /** Buffer shape: after any history, the buffer is the last min(n, 10)
      keys pressed, in order, so it never holds more than ten. */
  lemma {:induction false} BufferIsLastKeys(keys: seq<string>)
    ensures Feed(keys).buffer == LastN(keys, Window)
    ensures |Feed(keys).buffer| <= Window
  {
    if |keys| > 0 {
      var p := keys[..|keys| - 1];
      var k := keys[|keys| - 1];
      BufferIsLastKeys(p);
      assert keys == p + [k];
      calc {
        Feed(keys).buffer;
        Push(Feed(p).buffer, k);
        Push(LastN(p, Window), k);
        { LastNPush(p, k, Window); }
        LastN(p + [k], Window);
      }
    }
  }

  /** Trigger rule: the last keydown fires exactly when the concatenation of
      the last min(n, 10) keys equals the concatenation of the code. */
  lemma TriggerRule(keys: seq<string>)
    requires |keys| > 0
    ensures FiredOnLast(keys) <==> Join(LastN(keys, Window)) == Join(Target)
  {
    BufferIsLastKeys(keys);
    assert FiredOnLast(keys) == Matches(Feed(keys).buffer);
  }

  /** Whatever came before, typing the code fires the effect on its last key. */
  lemma FiresAfterCode(history: seq<string>)
    ensures FiredOnLast(history + Target)
  {
    var keys := history + Target;
    TriggerRule(keys);
    assert LastN(keys, Window) == Target;
  }

  /** Every key of the sequence is one of the six names the code uses. */
  predicate OverKeyNames(keys: seq<string>)
  {
    forall i :: 0 <= i < |keys| ==> keys[i] in KeyNames
  }

  /** No key name is a proper prefix of another: the names form a prefix code. */
  lemma KeyNamesPrefixFree(u: string, v: string)
    requires u in KeyNames && v in KeyNames
    requires |u| <= |v| && u == v[..|u|]
    ensures u == v
  {
    assert u == "ArrowUp" || u == "ArrowDown" || u == "ArrowLeft" || u == "ArrowRight" || u == "b" || u == "a";
    assert v == "ArrowUp" || v == "ArrowDown" || v == "ArrowLeft" || v == "ArrowRight" || v == "b" || v == "a";
    assert u[0] == v[0];
    if |u| > 5 {
      assert u[5] == v[5];
    }
  }

  /** Two strings that each start with a key name and are equal start with
      the same key name, followed by the same rest. */
  lemma SameFirstKey(u: string, s1: string, v: string, s2: string)
    requires u in KeyNames && v in KeyNames
    requires u + s1 == v + s2
    ensures u == v && s1 == s2
  {
    var s := u + s1;
    if |u| <= |v| {
      assert u == s[..|u|] == v[..|u|];
      KeyNamesPrefixFree(u, v);
    } else {
      assert v == s[..|v|] == u[..|v|];
      KeyNamesPrefixFree(v, u);
    }
    assert s1 == s[|u|..] == s2;
  }

  /** On the six key names, the concatenation determines the keys: two key
      sequences with the same join are the same sequence. */
  lemma {:induction false} UniqueDecoding(xs: seq<string>, ys: seq<string>)
    requires OverKeyNames(xs) && OverKeyNames(ys)
    requires Join(xs) == Join(ys)
    ensures xs == ys
  {
    if |xs| == 0 || |ys| == 0 {
    } else {
      assert xs[0] in KeyNames && ys[0] in KeyNames;
      SameFirstKey(xs[0], Join(xs[1..]), ys[0], Join(ys[1..]));
      assert OverKeyNames(xs[1..]) && OverKeyNames(ys[1..]);
      UniqueDecoding(xs[1..], ys[1..]);
      assert xs == [xs[0]] + xs[1..] && ys == [ys[0]] + ys[1..];
    }
  }

  /** On the six key names, equal joins and equal key sequences coincide. */
  lemma JoinEqualIffEqual(xs: seq<string>, ys: seq<string>)
    requires OverKeyNames(xs) && OverKeyNames(ys)
    ensures Join(xs) == Join(ys) <==> xs == ys
  {
    if Join(xs) == Join(ys) {
      UniqueDecoding(xs, ys);
    }
  }

  /** The code is spelled with the six key names. */
  lemma TargetOverKeyNames()
    ensures OverKeyNames(Target)
  {
  }

  /** A suffix of a key sequence over the six names is over them too. */
  lemma LastKeysOverKeyNames(keys: seq<string>)
    requires OverKeyNames(keys)
    ensures OverKeyNames(LastN(keys, Window))
  {
  }

  /** While the keys pressed are among the code's own names, the join test
      behaves like an element-wise test: it fires exactly when the last ten
      keys are the code, and never with fewer than ten keys pressed. */
  lemma FiresIffCodeOnKeyNames(keys: seq<string>)
    requires |keys| > 0
    requires OverKeyNames(keys)
    ensures FiredOnLast(keys) <==> |keys| >= Window && keys[|keys| - Window..] == Target
  {
    TriggerRule(keys);
    LastKeysOverKeyNames(keys);
    TargetOverKeyNames();
    JoinEqualIffEqual(LastN(keys, Window), Target);
  }

  /** Gluing the first two keys into one entry leaves the join unchanged. */
  lemma MergeFirstTwo(t: seq<string>, b: seq<string>)
    requires |t| >= 2 && |b| >= 1 && b[0] == t[0] + t[1] && b[1..] == t[2..]
    ensures Join(b) == Join(t)
  {
  }

  /** The join test is coarser than an element-wise one: a nine-entry buffer
      whose first entry is "ArrowUpArrowUp" is not the code, yet matches. */
  lemma JoinIsCoarser()
    ensures var b := ["ArrowUpArrowUp", "ArrowDown", "ArrowDown", "ArrowLeft",
                      "ArrowRight", "ArrowLeft", "ArrowRight", "b", "a"];
            Matches(b) && b != Target && |b| < Window
  {
    var b := ["ArrowUpArrowUp", "ArrowDown", "ArrowDown", "ArrowLeft",
              "ArrowRight", "ArrowLeft", "ArrowRight", "b", "a"];
    assert b[1..] == Target[2..];
    MergeFirstTwo(Target, b);
  }
}
