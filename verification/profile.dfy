/** Choosing the configuration section and collecting its launch list: the section named
    after the detected resolution, else "other"; of its options those whose key is all
    digits, ordered by the key's integer value, empty values dropped. */
module Profile {
  import opened Numerals

  /** The options of one section as (key, value) pairs, in file order. */
  type Section = seq<(string, string)>

  /** The sections of a configuration file by name. */
  type Config = map<string, Section>

  const Fallback: string := "other"

  /** `resolution if resolution in config else 'other'` */
  function SelectSection(config: Config, resolution: string): (name: string)
    ensures resolution in config ==> name == resolution
    ensures resolution !in config ==> name == Fallback
  {
    if resolution in config then resolution else Fallback
  }

  predicate DigitKeyed(p: (string, string)) {
    IsDigitString(p.0)
  }

  /** `int(key)` for an all-digit key. */
  function KeyValue(p: (string, string)): nat
    requires DigitKeyed(p)
  {
    DigitsValue(p.0)
  }

  predicate AllDigitKeyed(s: Section) {
    forall k :: 0 <= k < |s| ==> DigitKeyed(s[k])
  }

  /** The options whose key `isdigit()`, in file order. */
  function DigitEntries(sec: Section): (r: Section)
    ensures AllDigitKeyed(r)
  {
    if sec == [] then [] else DigitEntries(sec[..|sec| - 1]) + if DigitKeyed(sec[|sec| - 1]) then [sec[|sec| - 1]] else []
  }

  /** Each all-digit option is kept as often as it occurs, and no other. */
  lemma {:induction false} DigitEntriesCount(sec: Section, p: (string, string))
    ensures multiset(DigitEntries(sec))[p] == if DigitKeyed(p) then multiset(sec)[p] else 0
  {
    if sec != [] {
      var front, last := sec[..|sec| - 1], sec[|sec| - 1];
      assert sec == front + [last];
      DigitEntriesCount(front, p);
    }
  }

  predicate SortedByKey(s: Section)
    requires AllDigitKeyed(s)
  {
    forall i, j :: 0 <= i < j < |s| ==> KeyValue(s[i]) <= KeyValue(s[j])
  }

  /** Places `p` after every pair whose key is not larger, so equal keys keep their order. */
  function Insert(s: Section, p: (string, string)): (r: Section)
    requires AllDigitKeyed(s) && DigitKeyed(p)
    ensures AllDigitKeyed(r)
    ensures |r| == |s| + 1
  {
    if s == [] || KeyValue(s[|s| - 1]) <= KeyValue(p) then s + [p]
    else
      var front, last := s[..|s| - 1], s[|s| - 1];
      assert s == front + [last];
      Insert(front, p) + [last]
  }

  /** `sorted(keys, key=int)`: a stable sort on the keys' integer values. */
  function SortByKey(s: Section): (r: Section)
    requires AllDigitKeyed(s)
    ensures AllDigitKeyed(r)
    ensures |r| == |s|
  {
    if s == [] then []
    else
      var front, last := s[..|s| - 1], s[|s| - 1];
      assert s == front + [last];
      Insert(SortByKey(front), last)
  }

  /** Inserting adds exactly the one pair. */
  lemma {:induction false} InsertPermutes(s: Section, p: (string, string))
    requires AllDigitKeyed(s) && DigitKeyed(p)
    ensures multiset(Insert(s, p)) == multiset(s) + multiset{p}
    decreases |s|
  {
    if s != [] && KeyValue(s[|s| - 1]) > KeyValue(p) {
      var front, last := s[..|s| - 1], s[|s| - 1];
      assert s == front + [last];
      InsertPermutes(front, p);
    }
  }

  /** Sorting keeps every pair as often as it occurs: the result is a permutation. */
  lemma {:induction false} SortPermutes(s: Section)
    requires AllDigitKeyed(s)
    ensures multiset(SortByKey(s)) == multiset(s)
    decreases |s|
  {
    if s != [] {
      var front, last := s[..|s| - 1], s[|s| - 1];
      assert s == front + [last];
      SortPermutes(front);
      InsertPermutes(SortByKey(front), last);
    }
  }

  lemma {:induction false} InsertSorted(s: Section, p: (string, string))
    requires AllDigitKeyed(s) && DigitKeyed(p) && SortedByKey(s)
    ensures SortedByKey(Insert(s, p))
    decreases |s|
  {
    if s != [] && KeyValue(s[|s| - 1]) > KeyValue(p) {
      var front, last := s[..|s| - 1], s[|s| - 1];
      InsertSorted(front, p);
      InsertPermutes(front, p);
      var r := Insert(front, p);
      forall k | 0 <= k < |r| ensures KeyValue(r[k]) <= KeyValue(last) {
        assert r[k] in multiset(r);
        if r[k] != p {
          assert r[k] in multiset(front);
          var m :| 0 <= m < |front| && front[m] == r[k];
          assert s[m] == r[k];
        }
      }
    }
  }

  /** The sorted options are in ascending key order and are the same options. */
  lemma {:induction false} SortSorted(s: Section)
    requires AllDigitKeyed(s)
    ensures SortedByKey(SortByKey(s))
    decreases |s|
  {
    if s != [] {
      SortSorted(s[..|s| - 1]);
      InsertSorted(SortByKey(s[..|s| - 1]), s[|s| - 1]);
    }
  }

  /** The pairs whose key has value `v`, in order. */
  function WithKey(s: Section, v: nat): Section
    requires AllDigitKeyed(s)
  {
    if s == [] then []
    else WithKey(s[..|s| - 1], v) + if KeyValue(s[|s| - 1]) == v then [s[|s| - 1]] else []
  }

  lemma WithKeyAppend(s: Section, p: (string, string), v: nat)
    requires AllDigitKeyed(s) && DigitKeyed(p)
    ensures AllDigitKeyed(s + [p])
    ensures WithKey(s + [p], v) == WithKey(s, v) + if KeyValue(p) == v then [p] else []
  {
    assert (s + [p])[..|s|] == s;
  }

  lemma {:induction false} InsertStable(s: Section, p: (string, string), v: nat)
    requires AllDigitKeyed(s) && DigitKeyed(p) && SortedByKey(s)
    ensures WithKey(Insert(s, p), v) == WithKey(s, v) + if KeyValue(p) == v then [p] else []
    decreases |s|
  {
    if s == [] || KeyValue(s[|s| - 1]) <= KeyValue(p) {
      WithKeyAppend(s, p, v);
    } else {
      var front, last := s[..|s| - 1], s[|s| - 1];
      assert s == front + [last];
      assert Insert(s, p) == Insert(front, p) + [last];
      InsertStable(front, p, v);
      WithKeyAppend(Insert(front, p), last, v);
      WithKeyAppend(front, last, v);
      if KeyValue(p) == v {
        assert WithKey(Insert(s, p), v) == (WithKey(front, v) + [p]) + [];
        assert WithKey(s, v) == WithKey(front, v) + [];
      } else if KeyValue(last) == v {
        assert WithKey(Insert(s, p), v) == (WithKey(front, v) + []) + [last];
        assert WithKey(s, v) + [] == WithKey(front, v) + [last];
      } else {
        assert WithKey(Insert(s, p), v) == (WithKey(front, v) + []) + [];
        assert WithKey(s, v) + [] == WithKey(front, v) + [];
      }
    }
  }

  /** The sort is stable: the pairs that share a key value stay in file order. */
  lemma {:induction false} SortStable(s: Section, v: nat)
    requires AllDigitKeyed(s)
    ensures WithKey(SortByKey(s), v) == WithKey(s, v)
    decreases |s|
  {
    if s != [] {
      var front, last := s[..|s| - 1], s[|s| - 1];
      assert s == front + [last];
      SortStable(front, v);
      SortSorted(front);
      InsertStable(SortByKey(front), last, v);
      WithKeyAppend(front, last, v);
    }
  }

  /** The values that are not empty (`if val:`), in order. */
  function NonEmptyValues(s: Section): (r: seq<string>)
    ensures forall k :: 0 <= k < |r| ==> r[k] != ""
  {
    if s == [] then [] else NonEmptyValues(s[..|s| - 1]) + if s[|s| - 1].1 != "" then [s[|s| - 1].1] else []
  }

  /** A value is launched exactly when it is non-empty and some option carries it. */
  lemma {:induction false} NonEmptyValuesMembers(s: Section, v: string)
    ensures v in NonEmptyValues(s) <==> v != "" && exists k :: 0 <= k < |s| && s[k].1 == v
  {
    if s != [] {
      var front := s[..|s| - 1];
      NonEmptyValuesMembers(front, v);
      assert forall k :: 0 <= k < |front| ==> s[k] == front[k];
    }
  }

  /** The values to launch from the chosen section, or none when it does not exist. */
  function LaunchList(config: Config, section: string): seq<string> {
    if section in config then NonEmptyValues(SortByKey(DigitEntries(config[section]))) else []
  }

  /** The loop that appends the non-empty value of each sorted digit key. */
  method CollectEntries(config: Config, section: string) returns (apps: seq<string>)
    ensures apps == LaunchList(config, section)
  {
    apps := [];
    if section in config {
      var keys := SortByKey(DigitEntries(config[section]));
      var i := 0;
      while i < |keys|
        invariant 0 <= i <= |keys|
        invariant apps == NonEmptyValues(keys[..i])
      {
        assert keys[..i + 1][..i] == keys[..i];
        var value := keys[i].1;
        if value != "" {
          apps := apps + [value];
        }
        i := i + 1;
      }
      assert keys[..|keys|] == keys;
    }
  }

  /** What the launch list is built from: the all-digit options of the section, each once,
      in ascending key order, equal keys (such as "1" and "01") in file order. */
  lemma LaunchOrder(config: Config, section: string)
    requires section in config
    ensures var keys := SortByKey(DigitEntries(config[section]));
      && LaunchList(config, section) == NonEmptyValues(keys)
      && SortedByKey(keys)
      && (forall p :: multiset(keys)[p] == if DigitKeyed(p) then multiset(config[section])[p] else 0)
      && (forall v: nat :: WithKey(keys, v) == WithKey(DigitEntries(config[section]), v))
  {
    var digits := DigitEntries(config[section]);
    SortSorted(digits);
    SortPermutes(digits);
    forall p ensures multiset(SortByKey(digits))[p] == if DigitKeyed(p) then multiset(config[section])[p] else 0 {
      DigitEntriesCount(config[section], p);
    }
    forall v: nat ensures WithKey(SortByKey(digits), v) == WithKey(digits, v) {
      SortStable(digits, v);
    }
  }

  /** Keys 3, 1 and 10 launch in the order 1, 3, 10; other keys and empty values are skipped. */
  lemma NumericOrderExample()
    ensures LaunchList(map["1920x1080" := [("3", "a"), ("bgcolor", "black"), ("1", "b"),
                                          ("7", ""), ("10", "c")]], "1920x1080")
         == ["b", "a", "c"]
  {
    ExampleDigitEntries();
    ExampleSort();
    ExampleValues();
  }

  lemma ExampleValues()
    ensures NonEmptyValues([("1", "b"), ("3", "a"), ("7", ""), ("10", "c")]) == ["b", "a", "c"]
  {
    var a, b, c, d := ("1", "b"), ("3", "a"), ("7", ""), ("10", "c");
    NonEmptyValuesAppend([], a);
    assert [] + [a] == [a];
    NonEmptyValuesAppend([a], b);
    assert [a] + [b] == [a, b];
    NonEmptyValuesAppend([a, b], c);
    assert [a, b] + [c] == [a, b, c];
    NonEmptyValuesAppend([a, b, c], d);
    assert [a, b, c] + [d] == [a, b, c, d];
  }

  lemma NonEmptyValuesAppend(s: Section, p: (string, string))
    ensures NonEmptyValues(s + [p]) == NonEmptyValues(s) + if p.1 != "" then [p.1] else []
  {
    assert (s + [p])[..|s|] == s;
  }

  lemma ExampleDigitEntries()
    ensures DigitEntries([("3", "a"), ("bgcolor", "black"), ("1", "b"), ("7", ""), ("10", "c")])
         == [("3", "a"), ("1", "b"), ("7", ""), ("10", "c")]
  {
    var a, b, c, d, e := ("3", "a"), ("bgcolor", "black"), ("1", "b"), ("7", ""), ("10", "c");
    assert !DigitKeyed(b) by { assert !IsDigit(b.0[0]); }
    assert [] + [a] == [a];
    DigitEntriesAppend([], a);
    assert DigitEntries([a]) == [a];
    assert [a] + [b] == [a, b];
    DigitEntriesAppend([a], b);
    assert DigitEntries([a, b]) == [a];
    assert [a, b] + [c] == [a, b, c];
    DigitEntriesAppend([a, b], c);
    assert DigitEntries([a, b, c]) == [a, c];
    assert [a, b, c] + [d] == [a, b, c, d];
    DigitEntriesAppend([a, b, c], d);
    assert DigitEntries([a, b, c, d]) == [a, c, d];
    assert [a, b, c, d] + [e] == [a, b, c, d, e];
    DigitEntriesAppend([a, b, c, d], e);
  }

  lemma DigitEntriesAppend(s: Section, p: (string, string))
    ensures DigitEntries(s + [p]) == DigitEntries(s) + if DigitKeyed(p) then [p] else []
  {
    assert (s + [p])[..|s|] == s;
  }

  lemma ExampleSort()
    ensures SortByKey([("3", "a"), ("1", "b"), ("7", ""), ("10", "c")])
         == [("1", "b"), ("3", "a"), ("7", ""), ("10", "c")]
  {
    assert "10"[..1] == "1";
    assert DigitsValue("10") == 10;
    SortFour(("3", "a"), ("1", "b"), ("7", ""), ("10", "c"));
  }

  /** Four options whose second key is the smallest and whose others come in order. */
  lemma SortFour(a: (string, string), b: (string, string), c: (string, string), d: (string, string))
    requires DigitKeyed(a) && DigitKeyed(b) && DigitKeyed(c) && DigitKeyed(d)
    requires KeyValue(b) < KeyValue(a) <= KeyValue(c) <= KeyValue(d)
    ensures SortByKey([a, b, c, d]) == [b, a, c, d]
  {
    SortThree(a, b, c);
    SortSnoc([a, b, c], d);
    InsertLargest([b, a, c], d);
    assert [a, b, c] + [d] == [a, b, c, d];
    assert [b, a, c] + [d] == [b, a, c, d];
  }

  lemma SortThree(a: (string, string), b: (string, string), c: (string, string))
    requires DigitKeyed(a) && DigitKeyed(b) && DigitKeyed(c)
    requires KeyValue(b) < KeyValue(a) <= KeyValue(c)
    ensures SortByKey([a, b, c]) == [b, a, c]
  {
    SortTwo(a, b);
    SortSnoc([a, b], c);
    InsertLargest([b, a], c);
    assert [a, b] + [c] == [a, b, c];
    assert [b, a] + [c] == [b, a, c];
  }

  lemma SortTwo(a: (string, string), b: (string, string))
    requires DigitKeyed(a) && DigitKeyed(b) && KeyValue(b) < KeyValue(a)
    ensures SortByKey([a, b]) == [b, a]
  {
    SortSnoc([], a);
    assert [] + [a] == [a];
    InsertFirst(a);
    SortSnoc([a], b);
    assert [a] + [b] == [a, b];
    InsertSmaller(a, b);
  }

  lemma InsertFirst(p: (string, string))
    requires DigitKeyed(p)
    ensures Insert([], p) == [p]
  {
  }

  lemma InsertSmaller(a: (string, string), b: (string, string))
    requires DigitKeyed(a) && DigitKeyed(b) && KeyValue(b) < KeyValue(a)
    ensures Insert([a], b) == [b, a]
  {
    assert [a][..0] == [];
    assert Insert([], b) == [b];
  }

  lemma InsertLargest(s: Section, p: (string, string))
    requires AllDigitKeyed(s) && DigitKeyed(p) && s != [] && KeyValue(s[|s| - 1]) <= KeyValue(p)
    ensures Insert(s, p) == s + [p]
  {
  }

  lemma SortSnoc(s: Section, p: (string, string))
    requires AllDigitKeyed(s) && DigitKeyed(p)
    ensures AllDigitKeyed(s + [p])
    ensures SortByKey(s + [p]) == Insert(SortByKey(s), p)
  {
    assert (s + [p])[..|s|] == s;
  }
}
