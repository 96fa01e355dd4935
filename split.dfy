/** `_nsplit`: cut a string into consecutive groups of two characters. */
module Split {

  function NSplit(s: string): seq<string>
    decreases |s|
  {
    if |s| <= 2 then (if s == [] then [] else [s]) else [s[..2]] + NSplit(s[2..])
  }

  /** `''.join(groups)`. */
  function Join(groups: seq<string>): string {
    if groups == [] then [] else groups[0] + Join(groups[1..])
  }

  /** There are ceil(|s| / 2) groups and group k is `s[2k:2k+2]`: every
      group has two characters except possibly a one-character last one. */
  lemma {:induction false} NSplitAt(s: string, k: nat)
    ensures |NSplit(s)| == (|s| + 1) / 2
    ensures k < |NSplit(s)| ==>
      NSplit(s)[k] == s[2 * k..if 2 * k + 2 <= |s| then 2 * k + 2 else |s|]
    decreases |s|
  {
    if |s| > 2 {
      NSplitAt(s[2..], if k > 0 then k - 1 else 0);
      if k > 0 && k < |NSplit(s)| {
        assert NSplit(s)[k] == NSplit(s[2..])[k - 1];
      }
    }
  }

  /** Joining the groups gives back the string. */
  lemma {:induction false} NSplitJoin(s: string)
    ensures Join(NSplit(s)) == s
    decreases |s|
  {
    if |s| > 2 {
      NSplitJoin(s[2..]);
      assert [s[..2]] + NSplit(s[2..]) == NSplit(s);
      assert NSplit(s)[1..] == NSplit(s[2..]);
      assert s == s[..2] + s[2..];
    } else if s != [] {
      assert NSplit(s)[1..] == [];
    }
  }
}
