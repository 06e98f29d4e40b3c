/**
 Wayback: the hidden name a removed directory is kept under, and the filter that hides such names.
 */
module DeletedNames {
  import opened Text

  /** The names tried in turn: the modifier alone, then with 1, 2, 3 and so on. */
  function Candidate(path: string, modifier: string, k: nat): string {
    path + modifier + if k == 0 then "" else Numeral(k, 10)
  }

  lemma CandidatesDiffer(path: string, modifier: string, j: nat, k: nat)
    requires j != k
    ensures Candidate(path, modifier, j) != Candidate(path, modifier, k)
  {
    var n := |path + modifier|;
    var a, b := Candidate(path, modifier, j), Candidate(path, modifier, k);
    if a == b {
      assert a[n..] == b[n..];
      assert a[n..] == if j == 0 then "" else Numeral(j, 10);
      assert b[n..] == if k == 0 then "" else Numeral(k, 10);
      if j > 0 && k > 0 {
        NumeralInjective(j, k, 10);
      }
    }
  }

  lemma {:induction false} NumeralFits(k: nat)
    requires k > 0
    ensures |Numeral(k, 10)| + 1 <= k / 10 + 2
    decreases k
  {
    if k >= 10 {
      NumeralFits(k / 10);
    }
  }

  ghost function FirstCandidates(path: string, modifier: string, k: nat): set<string> {
    if k == 0 then {} else FirstCandidates(path, modifier, k - 1) + {Candidate(path, modifier, k - 1)}
  }

  lemma {:induction false} CandidateIsNew(path: string, modifier: string, k: nat, m: nat)
    requires k <= m
    ensures Candidate(path, modifier, m) !in FirstCandidates(path, modifier, k)
  {
    if k > 0 {
      CandidateIsNew(path, modifier, k - 1, m);
      CandidatesDiffer(path, modifier, k - 1, m);
    }
  }

  lemma {:induction false} CountCandidates(path: string, modifier: string, k: nat, taken: set<string>)
    requires forall j | 0 <= j < k :: Candidate(path, modifier, j) in taken
    ensures FirstCandidates(path, modifier, k) <= taken && |FirstCandidates(path, modifier, k)| == k
  {
    hide Candidate;
    if k > 0 {
      var first := FirstCandidates(path, modifier, k - 1);
      CountCandidates(path, modifier, k - 1, taken);
      CandidateIsNew(path, modifier, k - 1, k - 1);
      assert |first + {Candidate(path, modifier, k - 1)}| == |first| + 1;
    }
  }

  /** No more candidates than there are names can be taken. */
  lemma CandidatesRunOut(path: string, modifier: string, k: nat, taken: set<string>)
    requires forall j | 0 <= j < k :: Candidate(path, modifier, j) in taken
    ensures k <= |taken|
  {
    var first := FirstCandidates(path, modifier, k);
    CountCandidates(path, modifier, k, taken);
    assert |taken| == |first| + |taken - first|;
  }

  /** `ver_deletedpath`: with finitely many names taken it ends with the first candidate that is free. */
  method DeletedPath(path: string, modifier: string, taken: set<string>) returns (name: string, ghost k: nat)
    ensures name == Candidate(path, modifier, k) && name !in taken
    ensures name == path + modifier + if k == 0 then "" else Numeral(k, 10)
    ensures k <= |taken| && forall j | 0 <= j < k :: Candidate(path, modifier, j) in taken
  {
    hide Candidate;
    var deletedpath := path + modifier;
    assert Candidate(path, modifier, 0) == deletedpath by { FirstCandidate(path, modifier); }
    if deletedpath !in taken { return deletedpath, 0; }
    var addedint := 1;
    CandidatesRunOut(path, modifier, addedint, taken);
    while true
      invariant 1 <= addedint <= |taken|
      invariant forall j | 0 <= j < addedint :: Candidate(path, modifier, j) in taken
      decreases |taken| - addedint
    {
      var size := |deletedpath| + addedint / 10 + 2;
      name := deletedpath + Numeral(addedint, 10);
      assert name == Candidate(path, modifier, addedint) && |name| + 1 <= size by {
        NumberedCandidate(path, modifier, addedint);
      }
      if name !in taken { return name, addedint; }
      addedint := addedint + 1;
      CandidatesRunOut(path, modifier, addedint, taken);
    }
  }

  lemma FirstCandidate(path: string, modifier: string)
    ensures Candidate(path, modifier, 0) == path + modifier
  {
  }

  /** The buffer a numbered name is printed into has room for it and its terminator. */
  lemma NumberedCandidate(path: string, modifier: string, k: nat)
    requires k > 0
    ensures Candidate(path, modifier, k) == path + modifier + Numeral(k, 10)
    ensures |Candidate(path, modifier, k)| + 1 <= |path + modifier| + k / 10 + 2
  {
  }

  // ----- the listing filter -----

  /** `needle` is found in `haystack` at `p`. */
  predicate FoundAt(haystack: string, needle: string, p: nat) {
    p + |needle| <= |haystack| && haystack[p..p + |needle|] == needle
  }

  /** `strstr` from position `from` on: the first place where the needle is found, or -1. */
  method Strstr(haystack: string, needle: string, from: nat) returns (p: int)
    ensures p >= 0 ==> from <= p && FoundAt(haystack, needle, p)
    ensures forall q: nat | from <= q && (p < 0 || q < p) :: !FoundAt(haystack, needle, q)
  {
    p := from;
    while p + |needle| <= |haystack|
      invariant from <= p
      invariant forall q: nat | from <= q < p :: !FoundAt(haystack, needle, q)
    {
      if haystack[p..p + |needle|] == needle { return; }
      p := p + 1;
    }
    p := -1;
  }

  /** Some occurrence of the modifier is followed by digits only. */
  predicate EndsInModifier(name: string, modifier: string) {
    exists p | 0 <= p <= |name| - |modifier| :: FoundAt(name, modifier, p) && AllDigits(name[p + |modifier|..], 10)
  }

  /** `matchesdeleted` looks at the last occurrence only; that decides for all of them. */
  method MatchesDeleted(name: string, modifier: string) returns (hidden: bool)
    requires modifier != ""
    ensures hidden <==> EndsInModifier(name, modifier)
  {
    var from, last := 0, -1;
    while true
      invariant from == last + 1
      invariant last >= 0 ==> FoundAt(name, modifier, last)
      invariant forall q: nat | last < q < from :: !FoundAt(name, modifier, q)
      decreases |name| - from
    {
      var p := Strstr(name, modifier, from);
      if p < 0 { break; }
      last, from := p, p + 1;
    }
    if last < 0 { return false; }
    var i := last + |modifier|;
    while i < |name|
      invariant last + |modifier| <= i <= |name|
      invariant AllDigits(name[last + |modifier|..i], 10)
    {
      if !IsDigit(name[i], 10) {
        forall p | 0 <= p <= |name| - |modifier| && FoundAt(name, modifier, p)
          ensures !AllDigits(name[p + |modifier|..], 10)
        {
          assert p <= last;
          assert name[p + |modifier|..][i - p - |modifier|] == name[i];
        }
        return false;
      }
      assert name[last + |modifier|..i + 1] == name[last + |modifier|..i] + [name[i]];
      i := i + 1;
    }
    assert name[last + |modifier|..i] == name[last + |modifier|..];
    hidden := true;
  }

  /** What `ver_getdir` leaves out of a listing. */
  predicate Hidden(name: string, deletedModifier: string, versionModifier: string) {
    (|name| > |deletedModifier| && EndsInModifier(name, deletedModifier))
    || (|name| >= |versionModifier| && name[|name| - |versionModifier|..] == versionModifier)
  }

  /** Every name a removed directory can be kept under is hidden. */
  lemma CandidateIsHidden(path: string, deletedModifier: string, versionModifier: string, k: nat)
    requires path != ""
    ensures Hidden(Candidate(path, deletedModifier, k), deletedModifier, versionModifier)
  {
    var name := Candidate(path, deletedModifier, k);
    var p := |path|;
    assert name[p..p + |deletedModifier|] == deletedModifier;
    assert name[p + |deletedModifier|..] == if k == 0 then "" else Numeral(k, 10);
    assert FoundAt(name, deletedModifier, p);
  }

  // ----- what a listing shows -----

  /** The name is something, or nothing, before the modifier and digits, or nothing, behind it, but not both nothing. */
  predicate SplitsAt(name: string, modifier: string, path: string, digits: string) {
    name == path + modifier + digits && AllDigits(digits, 10) && path + digits != ""
  }

  /** A name is left out if and only if it is made of the modifier in this way or ends in the version modifier. */
  lemma HiddenExactly(name: string, deletedModifier: string, versionModifier: string)
    ensures Hidden(name, deletedModifier, versionModifier) <==>
            || (exists path: string, digits: string :: SplitsAt(name, deletedModifier, path, digits))
            || (exists path: string :: name == path + versionModifier)
  {
    var n := |name| - |versionModifier|;
    if n >= 0 && name[n..] == versionModifier { assert name == name[..n] + versionModifier; }
    if path: string :| name == path + versionModifier { assert name[n..] == versionModifier; }
    if |name| > |deletedModifier| && EndsInModifier(name, deletedModifier) {
      var p :| 0 <= p <= |name| - |deletedModifier| && FoundAt(name, deletedModifier, p)
               && AllDigits(name[p + |deletedModifier|..], 10);
      assert SplitsAt(name, deletedModifier, name[..p], name[p + |deletedModifier|..]);
    }
    if path: string, digits: string :| SplitsAt(name, deletedModifier, path, digits) {
      assert name[|path|..|path| + |deletedModifier|] == deletedModifier;
      assert name[|path| + |deletedModifier|..] == digits;
      assert FoundAt(name, deletedModifier, |path|);
    }
  }

  /** A name in which the modifier does not occur, and which does not end in the other one, is listed. */
  lemma OrdinaryIsListed(name: string, deletedModifier: string, versionModifier: string)
    requires forall p: nat :: !FoundAt(name, deletedModifier, p)
    requires |name| >= |versionModifier| ==> name[|name| - |versionModifier|..] != versionModifier
    ensures !Hidden(name, deletedModifier, versionModifier)
  {
  }

  /** The names that are not hidden, in the order they are found. */
  function Listed(names: seq<string>, deletedModifier: string, versionModifier: string): (shown: seq<string>)
    ensures forall n :: n in shown <==> n in names && !Hidden(n, deletedModifier, versionModifier)
  {
    if names == [] then []
    else
      (if Hidden(names[0], deletedModifier, versionModifier) then [] else [names[0]])
      + Listed(names[1..], deletedModifier, versionModifier)
  }

  /** The test of `ver_getdir` for one name. */
  method OmitsName(name: string, deletedModifier: string, versionModifier: string) returns (hidden: bool)
    requires deletedModifier != ""
    ensures hidden <==> Hidden(name, deletedModifier, versionModifier)
  {
    hide EndsInModifier;
    if |name| > |deletedModifier| {
      hidden := MatchesDeleted(name, deletedModifier);
      if hidden { return; }
    }
    var n := |name| - |versionModifier|;
    hidden := n >= 0 && name[n..] == versionModifier;
  }

  lemma ListedFrom(names: seq<string>, deletedModifier: string, versionModifier: string, i: nat)
    requires i < |names|
    ensures Listed(names[i..], deletedModifier, versionModifier) ==
            (if Hidden(names[i], deletedModifier, versionModifier) then [] else [names[i]])
            + Listed(names[i + 1..], deletedModifier, versionModifier)
  {
    hide Hidden;
    assert names[i..][0] == names[i] && names[i..][1..] == names[i + 1..];
  }

  /** `ver_getdir`: hands on the names that are not hidden, until the receiver, which has room for some, refuses one. */
  method GetDir(names: seq<string>, deletedModifier: string, versionModifier: string, room: nat)
    returns (listed: seq<string>)
    requires deletedModifier != ""
    ensures var all := Listed(names, deletedModifier, versionModifier);
            listed == all[..if room < |all| then room else |all|]
  {
    hide Hidden, Listed;
    listed := [];
    ghost var rest := Listed(names, deletedModifier, versionModifier);
    assert names[0..] == names;
    for i := 0 to |names|
      invariant |listed| <= room && rest == Listed(names[i..], deletedModifier, versionModifier)
      invariant listed + rest == Listed(names, deletedModifier, versionModifier)
    {
      ListedFrom(names, deletedModifier, versionModifier, i);
      rest := Listed(names[i + 1..], deletedModifier, versionModifier);
      var hidden := OmitsName(names[i], deletedModifier, versionModifier);
      if !hidden {
        if |listed| == room { return; }
        listed := listed + [names[i]];
      }
    }
    assert rest == [] by { NothingListed(names[|names|..], deletedModifier, versionModifier); }
  }

  lemma NothingListed(names: seq<string>, deletedModifier: string, versionModifier: string)
    requires names == []
    ensures Listed(names, deletedModifier, versionModifier) == []
  {
  }
}
