/**
 Node names: `getUniqueName` and `canUseSanitizedNameAsSeed` of orchestrator/src/configGenerator.ts.
 A global table counts how often each name was asked for; repeated names get the count as a suffix.
 */
module UniqueNames {
  import opened Text

  /** `name.replaceAll(" ", "-")` */
  function SanitizeName(name: string): (s: string)
    ensures |s| == |name|
    ensures forall i :: 0 <= i < |s| ==> s[i] == if name[i] == ' ' then '-' else name[i]
  {
    if name == "" then "" else [if name[0] == ' ' then '-' else name[0]] + SanitizeName(name[1..])
  }

  /** A request: the sanitized name, and the parachain, zero for none. */
  datatype Request = Request(base: string, paraId: nat)

  function Count(requests: seq<Request>, base: string): nat {
    if requests == [] then 0
    else
      var n := |requests| - 1;
      Count(requests[..n], base) + if requests[n].base == base then 1 else 0
  }

  function CountIn(requests: seq<Request>, base: string, paraId: nat): nat {
    if requests == [] then 0
    else
      var n := |requests| - 1;
      CountIn(requests[..n], base, paraId) + if requests[n] == Request(base, paraId) then 1 else 0
  }

  function Suffixed(base: string, k: nat): string { base + "-" + Decimal(k) }

  /** The name given to the request after `k` earlier ones of the same base. */
  function NameFor(base: string, k: nat): string { if k == 0 then base else Suffixed(base, k) }

  /** The name given to request `i` of a run. */
  function NameAt(requests: seq<Request>, i: nat): string
    requires i < |requests|
  {
    NameFor(requests[i].base, Count(requests[..i], requests[i].base))
  }

  // ---- the source

  class NameTable {
    var usedNames: map<string, nat>
    var parasUsedNames: map<nat, map<string, nat>>
    /** Everything asked for so far. */
    ghost var requests: seq<Request>

    /** The counters are the numbers of requests. */
    ghost predicate Valid()
      reads this
    {
      && 0 !in parasUsedNames
      && (forall b :: (if b in usedNames then usedNames[b] else 0) == Count(requests, b))
      && forall p, b | p > 0 ::
           CountIn(requests, b, p) == if p in parasUsedNames && b in parasUsedNames[p] then parasUsedNames[p][b] else 0
    }

    constructor ()
      ensures Valid() && requests == []
    {
      usedNames, parasUsedNames, requests := map[], map[], [];
    }

    /** `getUniqueName(name, paraId)`; a parachain of zero is no parachain. */
    method GetUniqueName(name: string, paraId: nat) returns (uniqueName: string)
      requires Valid()
      modifies this
      ensures Valid() && requests == old(requests) + [Request(SanitizeName(name), paraId)]
      ensures uniqueName == NameAt(requests, |old(requests)|)
    {
      var base := SanitizeName(name);
      ghost var r := Request(base, paraId);
      assert (requests + [r])[..|requests|] == requests;
      if base !in usedNames || usedNames[base] == 0 {
        usedNames := usedNames[base := 1];
        uniqueName := base;
      } else {
        uniqueName := base + "-" + Decimal(usedNames[base]);
        usedNames := usedNames[base := usedNames[base] + 1];
      }
      if paraId != 0 {
        if paraId in parasUsedNames {
          var names := parasUsedNames[paraId];
          if base in names && names[base] != 0 {
            parasUsedNames := parasUsedNames[paraId := names[base := names[base] + 1]];
          } else {
            parasUsedNames := parasUsedNames[paraId := names[base := 1]];
          }
        } else {
          parasUsedNames := parasUsedNames[paraId := map[base := 1]];
        }
      }
      requests := requests + [r];
    }

    /** `canUseSanitizedNameAsSeed`: only while the parachain asked for the name at most once. */
    method CanUseSanitizedNameAsSeed(paraId: nat, base: string) returns (ok: bool)
      requires Valid()
      ensures ok <==> paraId == 0 || CountIn(requests, base, paraId) <= 1
    {
      return !(paraId in parasUsedNames && base in parasUsedNames[paraId] && parasUsedNames[paraId][base] > 1);
    }
  }

  // ---- suffixes

  /** The dash before the count is the last one. */
  lemma LastDash(b: string, k: nat)
    ensures Suffixed(b, k)[|b|] == '-'
    ensures forall i :: |b| < i < |Suffixed(b, k)| ==> Suffixed(b, k)[i] != '-'
  {
    assert forall i :: |b| < i < |Suffixed(b, k)| ==> Suffixed(b, k)[i] == Decimal(k)[i - |b| - 1];
  }

  /** Base and count can be read off a suffixed name. */
  lemma SuffixedIsInjective(b1: string, k1: nat, b2: string, k2: nat)
    requires Suffixed(b1, k1) == Suffixed(b2, k2)
    ensures b1 == b2 && k1 == k2
  {
    LastDash(b1, k1);
    LastDash(b2, k2);
    var s1, s2 := Suffixed(b1, k1), Suffixed(b2, k2);
    assert |b1| == |b2|;
    assert b1 == s1[..|b1|] && b2 == s2[..|b2|];
    assert Decimal(k1) == s1[|b1| + 1..] && Decimal(k2) == s2[|b2| + 1..];
    DecimalInjective(k1, k2);
  }

  // ---- counting

  lemma {:induction false} CountGrows(requests: seq<Request>, base: string, i: nat, j: nat)
    requires i <= j <= |requests|
    ensures Count(requests[..i], base) <= Count(requests[..j], base)
    ensures i < j && requests[i].base == base ==> Count(requests[..i], base) < Count(requests[..j], base)
    decreases j - i
  {
    if i < j {
      CountGrows(requests, base, i, j - 1);
      assert requests[..j][..j - 1] == requests[..j - 1];
    }
  }

  /** The request that found `k` earlier ones of its base. */
  lemma {:induction false} FindRequest(requests: seq<Request>, base: string, k: nat) returns (q: nat)
    requires k < Count(requests, base)
    ensures q < |requests| && requests[q].base == base && Count(requests[..q], base) == k
  {
    var n := |requests| - 1;
    if k < Count(requests[..n], base) {
      q := FindRequest(requests[..n], base, k);
      assert requests[..n][..q] == requests[..q];
    } else {
      q := n;
    }
  }

  // ---- when names repeat

  /** Some base equals another with a count that was given out as its suffix. */
  ghost predicate Clash(requests: seq<Request>, i: nat, base: string, k: nat)
    requires i < |requests|
  {
    requests[i].base == Suffixed(base, k) && 1 <= k < Count(requests, base)
  }

  ghost predicate NamesDiffer(requests: seq<Request>) {
    forall i, j :: 0 <= i < j < |requests| ==> NameAt(requests, i) != NameAt(requests, j)
  }

  /** Two requests that get the same name clash. */
  lemma RepeatIsClash(requests: seq<Request>, i: nat, j: nat)
    requires i < j < |requests| && NameAt(requests, i) == NameAt(requests, j)
    ensures exists p, base, k :: 0 <= p < |requests| && Clash(requests, p, base, k)
  {
    var bi, bj := requests[i].base, requests[j].base;
    var ki, kj := Count(requests[..i], bi), Count(requests[..j], bj);
    CountGrows(requests, bi, i, j);
    assert requests[..|requests|] == requests;
    CountGrows(requests, bj, j, |requests|);
    CountGrows(requests, bi, i, |requests|);
    if ki > 0 && kj > 0 {
      SuffixedIsInjective(bi, ki, bj, kj);
    } else if kj > 0 {
      assert Clash(requests, i, bj, kj);
    } else if ki > 0 {
      assert Clash(requests, j, bi, ki);
    }
  }

  /** A clash repeats a name. */
  lemma ClashIsRepeat(requests: seq<Request>, i: nat, base: string, k: nat)
    requires i < |requests| && Clash(requests, i, base, k)
    ensures !NamesDiffer(requests)
  {
    var a := requests[i].base;
    assert requests[..|requests|] == requests;
    CountGrows(requests, a, i, |requests|);
    var p := FindRequest(requests, a, 0);
    var q := FindRequest(requests, base, k);
    assert |a| > |base|;
    assert NameAt(requests, p) == a == NameAt(requests, q);
    assert p < q || q < p;
  }

  /**
   Main result: over any run all names differ exactly when no requested name is another one with a
   dash and a count below the number of times that other one was requested.
   */
  lemma NamesDifferIffNoClash(requests: seq<Request>)
    ensures NamesDiffer(requests) <==>
            !exists i, base, k :: 0 <= i < |requests| && Clash(requests, i, base, k)
  {
    if !NamesDiffer(requests) {
      var i, j :| 0 <= i < j < |requests| && NameAt(requests, i) == NameAt(requests, j);
      RepeatIsClash(requests, i, j);
    }
    if exists i, base, k :: 0 <= i < |requests| && Clash(requests, i, base, k) {
      var i, base, k :| 0 <= i < |requests| && Clash(requests, i, base, k);
      ClashIsRepeat(requests, i, base, k);
    }
  }

  /** A concrete failure: asked for `a`, `a` and `a-1`, the table gives `a-1` twice. */
  lemma SuffixAskedFor()
    ensures var requests := [Request("a", 0), Request("a", 0), Request("a-1", 0)];
            NameAt(requests, 1) == NameAt(requests, 2) == "a-1" && Clash(requests, 2, "a", 1)
  {
    var requests := [Request("a", 0), Request("a", 0), Request("a-1", 0)];
    assert requests[..1] == [Request("a", 0)] && requests[..2] == [Request("a", 0), Request("a", 0)];
    assert requests[..1][..0] == [] && requests[..2][..1] == requests[..1];
    assert Count(requests[..1], "a") == 1 && Count(requests[..2], "a") == 2;
    assert Count(requests[..1], "a-1") == 0 && Count(requests[..2], "a-1") == 0;
    assert requests[..2] + [requests[2]] == requests && requests[..|requests| - 1] == requests[..2];
    assert Count(requests, "a") == 2;
    assert Suffixed("a", 1) == "a-1";
  }

  /** In particular they differ when no base is another base with a dash and a numeral. */
  lemma PlainNamesDiffer(requests: seq<Request>)
    requires forall i, j, k :: 0 <= i < |requests| && 0 <= j < |requests| && k >= 1 ==>
               requests[i].base != Suffixed(requests[j].base, k)
    ensures NamesDiffer(requests)
  {
    NamesDifferIffNoClash(requests);
    forall i: nat, base: string, k: nat | i < |requests| ensures !Clash(requests, i, base, k) {
      if 1 <= k < Count(requests, base) {
        var j := FindRequest(requests, base, 0);
        assert requests[i].base != Suffixed(requests[j].base, k);
      }
    }
  }
}
