/** `strings.TrimSpace`, which the gateway applies to every identifier it compares, and lists of ids cleaned with it (iscsi/control.go). */
module Text {

  /** The code points with the Unicode White_Space property. */
  predicate IsSpace(c: char) {
    var n := c as int;
    9 <= n <= 13 || n == 32 || n == 0x85 || n == 0xA0 || n == 0x1680 || 0x2000 <= n <= 0x200A
    || n == 0x2028 || n == 0x2029 || n == 0x202F || n == 0x205F || n == 0x3000
  }

  function TrimLeft(s: string): string {
    if s != "" && IsSpace(s[0]) then TrimLeft(s[1..]) else s
  }

  function TrimRight(s: string): string {
    if s != "" && IsSpace(s[|s| - 1]) then TrimRight(s[..|s| - 1]) else s
  }

  predicate Trimmed(s: string) {
    s == "" || (!IsSpace(s[0]) && !IsSpace(s[|s| - 1]))
  }

  function Trim(s: string): (t: string)
    ensures Trimmed(t)
    ensures Trimmed(s) ==> t == s
  {
    TrimLeftEdge(s);
    TrimRightEdge(TrimLeft(s));
    TrimRight(TrimLeft(s))
  }

  lemma {:induction false} TrimLeftEdge(s: string)
    ensures TrimLeft(s) == "" || !IsSpace(TrimLeft(s)[0])
  {
    if s != "" && IsSpace(s[0]) {
      TrimLeftEdge(s[1..]);
    }
  }

  lemma {:induction false} TrimRightEdge(s: string)
    ensures TrimRight(s) <= s
    ensures TrimRight(s) == "" || !IsSpace(TrimRight(s)[|TrimRight(s)| - 1])
  {
    if s != "" && IsSpace(s[|s| - 1]) {
      TrimRightEdge(s[..|s| - 1]);
    }
  }

  /** Trimming keeps one stretch of the text; everything before and after it is white space. */
  lemma TrimKeepsStretch(s: string) returns (i: nat, j: nat)
    ensures i <= j <= |s| && Trim(s) == s[i..j] && Trimmed(s[i..j])
    ensures forall k :: 0 <= k < i || j <= k < |s| ==> IsSpace(s[k])
  {
    hide IsSpace, Trimmed;
    i := LeftStretch(s);
    var t := TrimLeft(s);
    j := RightStretch(t);
    assert t[..j] == s[i..i + j];
    forall k | i + j <= k < |s|
      ensures IsSpace(s[k])
    {
      assert s[k] == t[k - i];
    }
    j := i + j;
  }

  lemma {:induction false} LeftStretch(s: string) returns (i: nat)
    ensures i <= |s| && TrimLeft(s) == s[i..] && forall k :: 0 <= k < i ==> IsSpace(s[k])
  {
    hide IsSpace;
    i := 0;
    if s != "" && IsSpace(s[0]) {
      i := LeftStretch(s[1..]);
      forall k | 0 <= k < i + 1
        ensures IsSpace(s[k])
      {
        assert k > 0 ==> s[k] == s[1..][k - 1];
      }
      assert s[1..][i..] == s[i + 1..];
      i := i + 1;
    }
  }

  lemma {:induction false} RightStretch(s: string) returns (j: nat)
    ensures j <= |s| && TrimRight(s) == s[..j] && forall k :: j <= k < |s| ==> IsSpace(s[k])
  {
    hide IsSpace;
    j := |s|;
    if s != "" && IsSpace(s[|s| - 1]) {
      j := RightStretch(s[..|s| - 1]);
    }
  }

  // ------------------------------------------------------------- lists of ids

  /** The trimmed, non-empty values at their first occurrence. */
  function Unique(values: seq<string>): seq<string>
    decreases |values|
  {
    if values == [] then []
    else
      var before, v := Unique(values[..|values| - 1]), Trim(values[|values| - 1]);
      if v == "" || v in before then before else before + [v]
  }

  /** The source's loop with its map of values seen. */
  method UniqueNonEmptyStrings(values: seq<string>) returns (out: seq<string>)
    ensures out == Unique(values)
  {
    var seen: set<string> := {};
    out := [];
    for i := 0 to |values|
      invariant out == Unique(values[..i]) && seen == (set v | v in out)
    {
      assert values[..i + 1][..i] == values[..i];
      var v := Trim(values[i]);
      if v == "" || v in seen {
        continue;
      }
      seen := seen + {v};
      out := out + [v];
    }
    assert values[..|values|] == values;
  }

  predicate NoDuplicates(s: seq<string>) {
    forall i, j :: 0 <= i < j < |s| ==> s[i] != s[j]
  }

  /** A list of clean ids: what Unique leaves alone. */
  predicate Clean(s: seq<string>) {
    NoDuplicates(s) && forall v :: v in s ==> v != "" && Trimmed(v)
  }

  lemma {:induction false} UniqueClean(values: seq<string>)
    ensures Clean(Unique(values))
    decreases |values|
  {
    hide Trimmed;
    if values != [] {
      UniqueClean(values[..|values| - 1]);
    }
  }

  /** Exactly the ids named by the list, whatever white space surrounds them. */
  lemma {:induction false} UniqueMembers(values: seq<string>, id: string)
    ensures id in Unique(values) <==> id != "" && exists v :: v in values && Trim(v) == id
    decreases |values|
  {
    if values != [] {
      var before, last := values[..|values| - 1], values[|values| - 1];
      assert values == before + [last];
      UniqueMembers(before, id);
    }
  }

  lemma {:induction false} UniqueOfClean(s: seq<string>)
    requires Clean(s)
    ensures Unique(s) == s
    decreases |s|
  {
    hide Trim, Trimmed;
    if s != [] {
      var before := s[..|s| - 1];
      assert forall v :: v in before ==> v in s;
      UniqueOfClean(before);
      assert s[|s| - 1] in s;
    }
  }

  function AddOnce(s: seq<string>, id: string): seq<string> {
    if id in s then s else s + [id]
  }

  /** Adding one id at the end: nothing before it moves, and the list stays clean. */
  lemma UniqueAppend(values: seq<string>, id: string)
    requires id != "" && Trimmed(id)
    ensures Unique(values + [id]) == AddOnce(Unique(values), id) && Clean(AddOnce(Unique(values), id))
  {
    hide Trim, Trimmed, Clean;
    assert (values + [id])[..|values|] == values;
    UniqueClean(values + [id]);
  }

  /** Cleaning twice is cleaning once. */
  lemma UniqueTwice(values: seq<string>)
    ensures Unique(Unique(values)) == Unique(values) && Clean(Unique(values))
  {
    hide Unique, Clean;
    UniqueClean(values);
    UniqueOfClean(Unique(values));
  }
}
