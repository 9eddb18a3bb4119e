/**
 * The text-texture cache of src/font_cache.c: a fixed table of rendered
 * strings, looked up linearly by key, stamped with a tick on every use, and
 * with the least recently used entry evicted by swap-with-last when full.
 *
 * Textures are opaque handles; what TTF/SDL rendering produces is an input
 * (`RenderOutcome`).
 */
module FontCache {
  import opened Common
  import opened Style

  /** What identifies a cached string: its text and the colour's red, green and blue (alpha is not part of it). */
  datatype CacheKey = CacheKey(text: string, r: int, g: int, b: int)

  function KeyOf(text: string, c: Color): (k: CacheKey)
    ensures k.text == text && k.r == c.r && k.g == c.g && k.b == c.b
  {
    CacheKey(text, c.r, c.g, c.b)
  }

  /** Two calls share an entry exactly when they ask for the same text in the same red, green and blue. */
  lemma KeyOfInjective(t1: string, c1: Color, t2: string, c2: Color)
    ensures KeyOf(t1, c1) == KeyOf(t2, c2) <==> t1 == t2 && c1.r == c2.r && c1.g == c2.g && c1.b == c2.b
  {
  }

  /** A digit of `%u`. */
  function Digit(d: nat): (c: char)
    requires d < 10
    ensures '0' <= c <= '9'
  {
    "0123456789"[d]
  }

  /** `%u` of a non-negative value: its decimal digits, most significant first. */
  function Decimal(n: nat): (s: string)
    ensures 1 <= |s|
    ensures forall i :: 0 <= i < |s| ==> '0' <= s[i] <= '9'
  {
    if n < 10 then [Digit(n)] else Decimal(n / 10) + [Digit(n % 10)]
  }

  /**
   * The key as the C code spells it: the text, a 0x01 byte, then the three
   * channels in decimal with nothing between them.
   */
  function KeyString(text: string, c: Color): (k: string)
    requires IsColor(c)
    ensures |k| > |text| && k[..|text|] == text && k[|text|] == '\U{1}'
  {
    text + ['\U{1}'] + Decimal(c.r) + Decimal(c.g) + Decimal(c.b)
  }

  /** Two different colours spell the same key, so the second lookup is served the first colour's texture. */
  lemma KeyStringCollides(text: string)
    ensures KeyString(text, Color(1, 23, 4, 255)) == KeyString(text, Color(12, 3, 4, 255))
  {
    assert Decimal(23) == "23";
    assert Decimal(12) == "12";
  }

  datatype CacheEntry = CacheEntry(key: CacheKey, texture: nat, w: int, h: int, lastUsed: nat)

  /** TTF_RenderText_Blended failing, SDL_CreateTextureFromSurface failing, or a texture and its size. */
  datatype RenderOutcome = SurfaceFailed | TextureFailed | Rendered(texture: nat, w: int, h: int)

  /** A non-NULL return of font_cache_get: the texture and what it writes to *w and *h. */
  datatype Lookup = Lookup(texture: nat, w: int, h: int)

  predicate DistinctKeys(s: seq<CacheEntry>)
  {
    forall i, j :: 0 <= i < j < |s| ==> s[i].key != s[j].key
  }

  predicate StampedBy(s: seq<CacheEntry>, tick: nat)
  {
    forall i :: 0 <= i < |s| ==> s[i].lastUsed <= tick
  }

  /** find_entry: the first index holding `key`, or -1. */
  function IndexOf(s: seq<CacheEntry>, key: CacheKey): (i: int)
    ensures -1 <= i < |s|
    ensures i == -1 <==> forall j :: 0 <= j < |s| ==> s[j].key != key
    ensures i >= 0 ==> s[i].key == key && forall j :: 0 <= j < i ==> s[j].key != key
  {
    if s == [] then -1
    else if s[0].key == key then 0
    else
      var i := IndexOf(s[1..], key);
      if i == -1 then -1 else i + 1
  }

  /** The first entry with the smallest last_used among the first n. */
  function OldestIn(s: seq<CacheEntry>, n: nat): (o: nat)
    requires 1 <= n <= |s|
    ensures o < n
    ensures forall j :: 0 <= j < n ==> s[o].lastUsed <= s[j].lastUsed
    ensures forall j :: 0 <= j < o ==> s[j].lastUsed > s[o].lastUsed
  {
    if n == 1 then 0
    else
      var o := OldestIn(s, n - 1);
      if s[n - 1].lastUsed < s[o].lastUsed then n - 1 else o
  }

  function Oldest(s: seq<CacheEntry>): (o: nat)
    requires |s| >= 1
    ensures o < |s|
    ensures forall j :: 0 <= j < |s| ==> s[o].lastUsed <= s[j].lastUsed
    ensures forall j :: 0 <= j < o ==> s[j].lastUsed > s[o].lastUsed
  {
    OldestIn(s, |s|)
  }

  /** Removal by swapping: the last entry moves into slot k and the table shrinks by one. */
  function SwapRemove(s: seq<CacheEntry>, k: nat): (r: seq<CacheEntry>)
    requires k < |s|
    ensures |r| == |s| - 1
    ensures forall j :: 0 <= j < |r| ==> r[j] == (if j == k then s[|s| - 1] else s[j])
  {
    s[k := s[|s| - 1]][..|s| - 1]
  }

  /** Removing an entry by swap-with-last removes exactly that one entry. */
  lemma SwapRemovePermutes(s: seq<CacheEntry>, k: nat)
    requires k < |s|
    ensures multiset(SwapRemove(s, k)) == multiset(s) - multiset{s[k]}
  {
    var last := s[|s| - 1];
    var moved := s[k := last];
    var r := SwapRemove(s, k);
    assert moved == r + [last];
    assert multiset(moved) == multiset(r) + multiset{last};
    assert s[k] in multiset(s);
    assert multiset(moved) == multiset(s) - multiset{s[k]} + multiset{last};
    var a, b := multiset(r), multiset(s) - multiset{s[k]};
    assert a + multiset{last} == b + multiset{last};
    forall y
      ensures a[y] == b[y]
    {
      assert (a + multiset{last})[y] == (b + multiset{last})[y];
    }
    assert a == b;
  }

  lemma SwapRemoveKeepsDistinct(s: seq<CacheEntry>, k: nat)
    requires k < |s| && DistinctKeys(s)
    ensures DistinctKeys(SwapRemove(s, k))
    ensures forall j :: 0 <= j < |SwapRemove(s, k)| ==> SwapRemove(s, k)[j].key != s[k].key
  {
    var r := SwapRemove(s, k);
    var at := (j: int) requires 0 <= j < |r| => if j == k then |s| - 1 else j;
    forall i, j | 0 <= i < j < |r|
      ensures r[i].key != r[j].key
    {
      assert r[i] == s[at(i)] && r[j] == s[at(j)] && at(i) != at(j);
    }
  }

  /** The whole effect of one font_cache_get: the live entries, the tick, and the return value. */
  datatype GetResult = GetResult(entries: seq<CacheEntry>, tick: nat, result: Option<Lookup>)

  /** font_cache_get on the live entries, the tick and the table's capacity. */
  function GetSpec(s: seq<CacheEntry>, tick: nat, capacity: nat, text: string, color: Color, outcome: RenderOutcome): (g: GetResult)
    requires 1 <= capacity && |s| <= capacity
    ensures text == "" ==> g == GetResult(s, tick, None)
    ensures text != "" ==> g.tick == tick + 1
    ensures |g.entries| <= capacity
    ensures g.result.Some? <==> text != "" && (IndexOf(s, KeyOf(text, color)) >= 0 || outcome.Rendered?)
    ensures g.result.None? ==> g.entries == s
  {
    if text == "" then GetResult(s, tick, None)
    else
      var t := tick + 1;
      var key := KeyOf(text, color);
      var i := IndexOf(s, key);
      if i >= 0 then
        GetResult(s[i := s[i].(lastUsed := t)], t, Some(Lookup(s[i].texture, s[i].w, s[i].h)))
      else
        match outcome
        case Rendered(tex, w, h) =>
          var kept := if |s| >= capacity then SwapRemove(s, Oldest(s)) else s;
          GetResult(kept + [CacheEntry(key, tex, w, h, t)], t, Some(Lookup(tex, w, h)))
        case _ => GetResult(s, t, None)
  }

  /** What every call keeps: at most `capacity` entries, keys pairwise distinct, no stamp ahead of the tick. */
  lemma GetKeepsInvariant(s: seq<CacheEntry>, tick: nat, capacity: nat, text: string, color: Color, outcome: RenderOutcome)
    requires 1 <= capacity && |s| <= capacity && DistinctKeys(s) && StampedBy(s, tick)
    ensures var g := GetSpec(s, tick, capacity, text, color, outcome);
      |g.entries| <= capacity && DistinctKeys(g.entries) && StampedBy(g.entries, g.tick)
  {
    if text != "" && IndexOf(s, KeyOf(text, color)) < 0 && outcome.Rendered? {
      var key := KeyOf(text, color);
      var kept := if |s| >= capacity then SwapRemove(s, Oldest(s)) else s;
      if |s| >= capacity {
        SwapRemoveKeepsDistinct(s, Oldest(s));
      }
      AppendKeepsInvariant(kept, tick, CacheEntry(key, outcome.texture, outcome.w, outcome.h, tick + 1));
    }
  }

  /** Appending an entry with a new key and the new tick keeps the keys distinct and the stamps behind the tick. */
  lemma AppendKeepsInvariant(kept: seq<CacheEntry>, tick: nat, e: CacheEntry)
    requires DistinctKeys(kept) && e.lastUsed == tick + 1
    requires forall j :: 0 <= j < |kept| ==> kept[j].key != e.key && kept[j].lastUsed <= tick
    ensures DistinctKeys(kept + [e]) && StampedBy(kept + [e], tick + 1)
  {
  }

  /** An empty text changes nothing; any other call advances the tick by one. */
  lemma GetTicks(s: seq<CacheEntry>, tick: nat, capacity: nat, text: string, color: Color, outcome: RenderOutcome)
    requires 1 <= capacity && |s| <= capacity
    ensures text == "" ==> GetSpec(s, tick, capacity, text, color, outcome) == GetResult(s, tick, None)
    ensures text != "" ==> GetSpec(s, tick, capacity, text, color, outcome).tick == tick + 1
  {
  }

  /** A hit returns what is stored, restamps that entry and changes nothing else. */
  lemma HitReturnsStored(s: seq<CacheEntry>, tick: nat, capacity: nat, text: string, color: Color, outcome: RenderOutcome, i: nat)
    requires 1 <= capacity && |s| <= capacity && DistinctKeys(s)
    requires text != "" && i < |s| && s[i].key == KeyOf(text, color)
    ensures var g := GetSpec(s, tick, capacity, text, color, outcome);
      && g.result == Some(Lookup(s[i].texture, s[i].w, s[i].h))
      && |g.entries| == |s| && g.entries[i] == s[i].(lastUsed := tick + 1)
      && forall j :: 0 <= j < |s| && j != i ==> g.entries[j] == s[j]
  {
    assert IndexOf(s, KeyOf(text, color)) == i;
  }

  /** A miss whose rendering fails returns NULL and inserts nothing. */
  lemma FailedRenderInsertsNothing(s: seq<CacheEntry>, tick: nat, capacity: nat, text: string, color: Color, outcome: RenderOutcome)
    requires 1 <= capacity && |s| <= capacity
    requires text != "" && IndexOf(s, KeyOf(text, color)) == -1 && !outcome.Rendered?
    ensures GetSpec(s, tick, capacity, text, color, outcome) == GetResult(s, tick + 1, None)
  {
  }

  /**
   * A successful miss appends one entry stamped with the new tick; when the
   * table was full the first least recently used entry went first.
   */
  lemma MissInserts(s: seq<CacheEntry>, tick: nat, capacity: nat, text: string, color: Color, tex: nat, w: int, h: int)
    requires 1 <= capacity && |s| <= capacity
    requires text != "" && IndexOf(s, KeyOf(text, color)) == -1
    ensures var g := GetSpec(s, tick, capacity, text, color, Rendered(tex, w, h));
      && g.result == Some(Lookup(tex, w, h))
      && g.entries[|g.entries| - 1] == CacheEntry(KeyOf(text, color), tex, w, h, tick + 1)
      && (|s| < capacity ==> g.entries == s + [g.entries[|g.entries| - 1]])
      && (|s| >= capacity ==>
           && |g.entries| == capacity
           && multiset(g.entries) == multiset(s) - multiset{s[Oldest(s)]} + multiset{g.entries[|g.entries| - 1]}
           && forall j :: 0 <= j < |s| ==> s[Oldest(s)].lastUsed <= s[j].lastUsed)
  {
    if |s| >= capacity {
      SwapRemovePermutes(s, Oldest(s));
    }
  }

  /** After any call that returned a texture, asking again for the same text and colour is a hit on that texture. */
  lemma GetThenHit(s: seq<CacheEntry>, tick: nat, capacity: nat, text: string, color: Color, outcome: RenderOutcome, again: RenderOutcome)
    requires 1 <= capacity && |s| <= capacity && DistinctKeys(s) && StampedBy(s, tick)
    requires GetSpec(s, tick, capacity, text, color, outcome).result.Some?
    ensures var g := GetSpec(s, tick, capacity, text, color, outcome);
      GetSpec(g.entries, g.tick, capacity, text, color, again).result == g.result
  {
    var g := GetSpec(s, tick, capacity, text, color, outcome);
    var key := KeyOf(text, color);
    GetKeepsInvariant(s, tick, capacity, text, color, outcome);
    var i := IndexOf(s, key);
    var at := if i >= 0 then i else |g.entries| - 1;
    assert g.entries[at].key == key;
    assert g.result == Some(Lookup(g.entries[at].texture, g.entries[at].w, g.entries[at].h));
    assert IndexOf(g.entries, key) == at;
  }

  // ---------------------------------------------------------------------
  // The table
  // ---------------------------------------------------------------------

  class FontCache {
    /** The calloc'ed table; its length is the capacity. */
    const entries: array<CacheEntry>
    var count: nat
    var tick: nat

    function Contents(): seq<CacheEntry>
      reads this, entries
      requires count <= entries.Length
    {
      entries[..count]
    }

    predicate Valid()
      reads this, entries
    {
      && 1 <= entries.Length && count <= entries.Length
      && DistinctKeys(entries[..count]) && StampedBy(entries[..count], tick)
    }

    /** font_cache_create with a positive capacity: an empty table and tick 0. */
    constructor (capacity: nat)
      requires capacity >= 1
      ensures Valid() && fresh(entries)
      ensures entries.Length == capacity && count == 0 && tick == 0
    {
      entries := new CacheEntry[capacity](_ => CacheEntry(CacheKey("", 0, 0, 0), 0, 0, 0, 0));
      count := 0;
      tick := 0;
    }

    /** find_entry: the linear scan over the live entries. */
    method FindEntry(key: CacheKey) returns (idx: int)
      requires count <= entries.Length
      ensures idx == IndexOf(Contents(), key)
    {
      var i := 0;
      while i < count
        invariant i <= count
        invariant forall j :: 0 <= j < i ==> entries[j].key != key
      {
        if entries[i].key == key {
          return i;
        }
        i := i + 1;
      }
      return -1;
    }

    /** The scan of evict_oldest: the first entry with the smallest last use. */
    method FindOldest() returns (oldest: nat)
      requires 1 <= count <= entries.Length
      ensures oldest == Oldest(Contents())
    {
      ghost var s := Contents();
      oldest := 0;
      var i := 1;
      while i < count
        invariant 1 <= i <= count
        invariant oldest == OldestIn(s, i)
      {
        if entries[i].lastUsed < entries[oldest].lastUsed {
          oldest := i;
        }
        i := i + 1;
      }
    }

    /** evict_oldest: the first least recently used entry is replaced by the last one. */
    method EvictOldest()
      requires Valid() && count >= 1
      modifies this`count, entries
      ensures count == old(count) - 1
      ensures Contents() == SwapRemove(old(Contents()), Oldest(old(Contents())))
    {
      ghost var s := Contents();
      var oldest := FindOldest();
      count := count - 1;
      entries[oldest] := entries[count];
      assert entries[..count] == SwapRemove(s, oldest);
    }

    /** A hit: the entry at idx gets the current tick as its last use. */
    method Touch(idx: nat)
      requires Valid() && idx < count
      modifies entries
      ensures Contents() == old(Contents())[idx := old(Contents())[idx].(lastUsed := tick)]
    {
      entries[idx] := entries[idx].(lastUsed := tick);
      assert entries[..count] == old(entries[..count])[idx := old(entries[idx]).(lastUsed := tick)];
    }

    /** Appending a freshly rendered entry in the first free slot. */
    method Insert(e: CacheEntry)
      requires count < entries.Length
      modifies this`count, entries
      ensures count == old(count) + 1 && count <= entries.Length
      ensures Contents() == old(Contents()) + [e]
    {
      entries[count] := e;
      count := count + 1;
      assert entries[..count] == old(entries[..count]) + [e];
    }

    /** A miss that rendered: evict first when the table is full, then append. */
    method Admit(e: CacheEntry)
      requires Valid()
      modifies this`count, entries
      ensures count <= entries.Length
      ensures var s := old(Contents());
        Contents() == (if |s| >= entries.Length then SwapRemove(s, Oldest(s)) else s) + [e]
    {
      if count >= entries.Length {
        EvictOldest();
      }
      Insert(e);
    }

    /** font_cache_get with rendering abstracted to `outcome`. */
    method Get(text: string, color: Color, outcome: RenderOutcome) returns (r: Option<Lookup>)
      requires Valid()
      modifies this`count, this`tick, entries
      ensures Valid()
      ensures var g := GetSpec(old(Contents()), old(tick), entries.Length, text, color, outcome);
        Contents() == g.entries && tick == g.tick && r == g.result
    {
      ghost var s := Contents();
      ghost var g := GetSpec(s, tick, entries.Length, text, color, outcome);
      GetKeepsInvariant(s, tick, entries.Length, text, color, outcome);
      if text == "" {
        return None;
      }
      tick := tick + 1;
      var key := KeyOf(text, color);
      var idx := FindEntry(key);
      if idx >= 0 {
        Touch(idx);
        assert entries[idx] == Contents()[idx] == s[idx].(lastUsed := tick);
        assert g == GetResult(s[idx := s[idx].(lastUsed := tick)], tick, Some(Lookup(s[idx].texture, s[idx].w, s[idx].h)));
        return Some(Lookup(entries[idx].texture, entries[idx].w, entries[idx].h));
      }
      if !outcome.Rendered? {
        assert g == GetResult(s, tick, None);
        return None;
      }
      var e := CacheEntry(key, outcome.texture, outcome.w, outcome.h, tick);
      Admit(e);
      assert g == GetResult(Contents(), tick, Some(Lookup(outcome.texture, outcome.w, outcome.h)));
      r := Some(Lookup(outcome.texture, outcome.w, outcome.h));
    }

    /** font_cache_clear: every entry released, count and tick back to 0. */
    method Clear()
      requires Valid()
      modifies this`count, this`tick
      ensures Valid() && Contents() == [] && tick == 0
    {
      count := 0;
      tick := 0;
    }
  }
}
