/**
 * A configuration file as `configparser` hands it over: named sections, each
 * an ordered list of `key = value` entries (a Python dict keeps insertion
 * order), with the two operations the program relies on: looking a key up and
 * setting one.
 */
module Ini {
  import opened Wrappers

  /** One `key = value` line of a section. */
  datatype Entry = Entry(key: string, value: string)

  /** A section's entries in file order. */
  type Section = seq<Entry>

  /** A parsed configuration: its sections by name. */
  datatype Config = Config(sections: map<string, Section>)

  /** What reading yields: a missing file reads as a configuration without sections. */
  function ReadConfig(file: Option<Config>): Config
  {
    file.GetOr(Config(map[]))
  }

  predicate DistinctKeys(s: Section)
  {
    forall i, j :: 0 <= i < j < |s| ==> s[i].key != s[j].key
  }

  function Keys(s: Section): set<string>
  {
    set i | 0 <= i < |s| :: s[i].key
  }

  /** `section[key]`, or `None` when the key is absent. */
  function Lookup(s: Section, key: string): (r: Option<string>)
    ensures r.Some? <==> key in Keys(s)
    decreases |s|
  {
    if |s| == 0 then None
    else if s[0].key == key then Some(s[0].value)
    else
      var r := Lookup(s[1..], key);
      assert Keys(s) == {s[0].key} + Keys(s[1..]) by {
        forall k | k in Keys(s) ensures k in {s[0].key} + Keys(s[1..]) {
          var i :| 0 <= i < |s| && s[i].key == k;
          if i > 0 {
            assert s[1..][i - 1] == s[i];
          }
        }
      }
      r
  }

  /** In a section without duplicate keys, a key's entry is where `Lookup` finds it. */
  lemma {:induction false} LookupFinds(s: Section, i: nat)
    requires DistinctKeys(s) && i < |s|
    ensures Lookup(s, s[i].key) == Some(s[i].value)
    decreases i
  {
    if i > 0 {
      assert s[0].key != s[i].key;
      assert s[1..][i - 1] == s[i];
      LookupFinds(s[1..], i - 1);
    }
  }

  /** `section[key] = value`: an existing key keeps its place, a new one goes last. */
  function SetOption(s: Section, key: string, value: string): Section
    decreases |s|
  {
    if |s| == 0 then [Entry(key, value)]
    else if s[0].key == key then [Entry(key, value)] + s[1..]
    else [s[0]] + SetOption(s[1..], key, value)
  }

  /** After setting, the key reads back the new value and every other key
      reads as before. */
  lemma {:induction false} SetOptionLookup(s: Section, key: string, value: string, k: string)
    ensures Lookup(SetOption(s, key, value), k) == if k == key then Some(value) else Lookup(s, k)
    decreases |s|
  {
    var r := SetOption(s, key, value);
    if |s| > 0 && s[0].key != key {
      SetOptionLookup(s[1..], key, value, k);
      assert r[1..] == SetOption(s[1..], key, value);
    } else if |s| > 0 {
      assert r[1..] == s[1..];
    }
  }

  /** Setting adds the key to the section's keys; the section grows by one
      entry exactly when the key is new. */
  lemma {:induction false} SetOptionKeys(s: Section, key: string, value: string)
    ensures Keys(SetOption(s, key, value)) == Keys(s) + {key}
    ensures |SetOption(s, key, value)| == if key in Keys(s) then |s| else |s| + 1
    decreases |s|
  {
    var r := SetOption(s, key, value);
    if |s| > 0 {
      KeysCons(s);
      KeysCons(r);
      if s[0].key == key {
        assert r[1..] == s[1..];
      } else {
        SetOptionKeys(s[1..], key, value);
        assert r[1..] == SetOption(s[1..], key, value);
      }
    } else {
      assert r[0].key == key;
    }
  }

  /** Setting never introduces a duplicate key. */
  lemma {:induction false} SetOptionDistinct(s: Section, key: string, value: string)
    requires DistinctKeys(s)
    ensures DistinctKeys(SetOption(s, key, value))
    decreases |s|
  {
    var r := SetOption(s, key, value);
    if |s| > 0 && s[0].key != key {
      SetOptionDistinct(s[1..], key, value);
      SetOptionKeys(s[1..], key, value);
      assert r[1..] == SetOption(s[1..], key, value);
      KeysCons(s);
      forall i | 0 <= i < |s| - 1 ensures s[1..][i].key != s[0].key {
        assert s[1..][i] == s[i + 1];
      }
      forall i, j | 0 <= i < j < |r| ensures r[i].key != r[j].key {
        if i == 0 {
          assert r[j] == r[1..][j - 1];
          assert r[1..][j - 1].key in Keys(r[1..]);
        } else {
          assert r[i] == r[1..][i - 1] && r[j] == r[1..][j - 1];
        }
      }
    } else if |s| > 0 {
      assert r[1..] == s[1..];
      forall i, j | 0 <= i < j < |r| ensures r[i].key != r[j].key {
        assert r[j] == s[j];
        if i > 0 { assert r[i] == s[i]; }
      }
    }
  }

  /** After setting, the key reads back the new value, every other key reads
      as before, no duplicate appears, and the section grows by one entry
      exactly when the key is new. */
  lemma SetOptionFacts(s: Section, key: string, value: string)
    ensures Lookup(SetOption(s, key, value), key) == Some(value)
    ensures forall k :: k != key ==> Lookup(SetOption(s, key, value), k) == Lookup(s, k)
    ensures Keys(SetOption(s, key, value)) == Keys(s) + {key}
    ensures |SetOption(s, key, value)| == if key in Keys(s) then |s| else |s| + 1
    ensures DistinctKeys(s) ==> DistinctKeys(SetOption(s, key, value))
  {
    SetOptionLookup(s, key, value, key);
    forall k | k != key ensures Lookup(SetOption(s, key, value), k) == Lookup(s, k) {
      SetOptionLookup(s, key, value, k);
    }
    SetOptionKeys(s, key, value);
    if DistinctKeys(s) {
      SetOptionDistinct(s, key, value);
    }
  }

  lemma KeysCons(s: Section)
    requires |s| > 0
    ensures Keys(s) == {s[0].key} + Keys(s[1..])
  {
    forall k | k in Keys(s) ensures k in {s[0].key} + Keys(s[1..]) {
      var i :| 0 <= i < |s| && s[i].key == k;
      if i > 0 {
        assert s[1..][i - 1] == s[i];
      }
    }
    forall k | k in Keys(s[1..]) ensures k in Keys(s) {
      var i :| 0 <= i < |s[1..]| && s[1..][i].key == k;
      assert s[i + 1] == s[1..][i];
    }
  }

  /** With distinct keys, `len` of the section (its number of keys) is its number of entries. */
  lemma {:induction false} DistinctKeysCount(s: Section)
    requires DistinctKeys(s)
    ensures |Keys(s)| == |s|
    decreases |s|
  {
    if |s| > 0 {
      KeysCons(s);
      assert DistinctKeys(s[1..]) by {
        forall i, j | 0 <= i < j < |s[1..]| ensures s[1..][i].key != s[1..][j].key {
          assert s[1..][i] == s[i + 1] && s[1..][j] == s[j + 1];
        }
      }
      DistinctKeysCount(s[1..]);
      forall i | 0 <= i < |s[1..]| ensures s[1..][i].key != s[0].key {
        assert s[1..][i] == s[i + 1];
      }
    }
  }
}
