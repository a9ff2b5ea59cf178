// The index of symbol names: lookup by parent symbols in a sorted map.

module SymbolIndex {
  import opened Results
  import opened Characters

  // ---------- the order of strings ----------

  predicate Less(a: string, b: string) {
    b != "" && (a == "" || a[0] < b[0] || (a[0] == b[0] && Less(a[1..], b[1..])))
  }

  predicate AtMost(a: string, b: string) { a == b || Less(a, b) }

  lemma {:induction false} LessTransitive(a: string, b: string, c: string)
    requires Less(a, b) && Less(b, c)
    ensures Less(a, c)
  {
    if a != "" && a[0] == b[0] == c[0] { LessTransitive(a[1..], b[1..], c[1..]); }
  }

  lemma {:induction false} LessTotal(a: string, b: string)
    ensures Less(a, b) || a == b || Less(b, a)
    ensures !(Less(a, b) && Less(b, a)) && !Less(a, a)
  {
    if a != "" && b != "" {
      LessTotal(a[1..], b[1..]);
      assert a == [a[0]] + a[1..] && b == [b[0]] + b[1..];
    }
    if a != "" { LessTotal(a[1..], a[1..]); }
  }

  // ---------- symbols ----------

  predicate IsNameChar(c: char) { 'a' <= c <= 'z' || 'A' <= c <= 'Z' || '0' <= c <= '9' || c == '_' || c == '.' }

  predicate ValidateSymbolName(name: string) { forall i :: 0 <= i < |name| ==> IsNameChar(name[i]) }

  // Letters, digits, underscores and periods
  predicate NameChar(c: char) { Letter(c) || OneOf(c, DIGITS) || c == '_' || c == '.' }

  // A name is valid exactly if it consists of those.
  lemma ValidNames(name: string)
    ensures ValidateSymbolName(name) <==> forall i :: 0 <= i < |name| ==> NameChar(name[i])
  {
    hide OneOf, Letter;
    forall i | 0 <= i < |name| ensures IsNameChar(name[i]) <==> NameChar(name[i]) {
      Printables(name[i]);
      DigitChars(name[i]);
    }
  }

  // The order of strings is that of their first difference.
  lemma {:induction false} LessIs(a: string, b: string)
    ensures Less(a, b) <==> exists k :: 0 <= k <= |a| && k < |b| && a[..k] == b[..k] && (k == |a| || a[k] < b[k])
  {
    if a != "" && b != "" && a[0] == b[0] {
      LessIs(a[1..], b[1..]);
      if Less(a, b) {
        var k :| 0 <= k <= |a[1..]| && k < |b[1..]| && a[1..][..k] == b[1..][..k] && (k == |a[1..]| || a[1..][k] < b[1..][k]);
        assert a[..k + 1] == [a[0]] + a[1..][..k] && b[..k + 1] == [b[0]] + b[1..][..k];
      }
      if k :| 0 <= k <= |a| && k < |b| && a[..k] == b[..k] && (k == |a| || a[k] < b[k]) {
        assert a[1..][..k - 1] == a[..k][1..] && b[1..][..k - 1] == b[..k][1..];
      }
    } else if Less(a, b) {
      assert a[..0] == b[..0];
    } else if k :| 0 <= k <= |a| && k < |b| && a[..k] == b[..k] && (k == |a| || a[k] < b[k]) {
      if k > 0 { assert false; }
    }
  }

  // A symbol is itself, and what follows its name and a period.
  lemma SubSymbols(sub: string, super: string)
    ensures IsSubSymbol(sub, super) <==> sub == super || exists rest :: sub == super + "." + rest
  {
    if super <= sub && sub != super && sub[|super|] == '.' {
      assert sub == super + "." + sub[|super| + 1..];
    }
    if rest :| sub == super + "." + rest {
      assert super <= sub && sub[|super|] == '.';
    }
  }

  // sub is super or lies below it.
  predicate IsSubSymbol(sub: string, super: string) {
    sub == super || (super <= sub && sub[|super|] == '.')
  }

  lemma {:induction false} PrefixAtMost(a: string, b: string)
    requires a <= b
    ensures AtMost(a, b)
  {
    if a != "" {
      assert a[1..] <= b[1..];
      PrefixAtMost(a[1..], b[1..]);
      assert a == [a[0]] + a[1..] && b == [b[0]] + b[1..];
    }
  }

  // What lies between a symbol and something below it is below the symbol too, for '.' sorts
  // before every other character of names.
  lemma {:induction false} Between(super: string, name: string, sub: string)
    requires ValidateSymbolName(name) && IsSubSymbol(sub, super) && AtMost(super, name) && AtMost(name, sub)
    ensures IsSubSymbol(name, super)
  {
    if sub == super {
      LessTotal(super, name);
    } else if super == "" {
      if name != "" { assert IsNameChar(name[0]); }
    } else if name != super {
      LessTotal(super, name);
      LessTotal(name, sub);
      assert name[0] == super[0] == sub[0];
      assert super[1..] <= sub[1..] && sub[1..][|super| - 1] == '.';
      forall i | 0 <= i < |name[1..]| ensures IsNameChar(name[1..][i]) { assert IsNameChar(name[i + 1]); }
      assert name == [name[0]] + name[1..] && super == [super[0]] + super[1..] && sub == [sub[0]] + sub[1..];
      Between(super[1..], name[1..], sub[1..]);
      if name[1..] != super[1..] { assert name[1..][|super| - 1] == name[|super|]; }
    }
  }

  lemma SubAtMost(sub: string, super: string)
    requires IsSubSymbol(sub, super)
    ensures AtMost(super, sub)
  {
    PrefixAtMost(super, sub);
  }

  // ---------- the keys of the index ----------

  ghost predicate Sorted(keys: seq<string>) { forall i, j :: 0 <= i < j < |keys| ==> Less(keys[i], keys[j]) }

  // No symbol lies below another one.
  ghost predicate PrefixFree(keys: seq<string>) {
    forall i, j :: 0 <= i < |keys| && 0 <= j < |keys| && i != j ==> !IsSubSymbol(keys[i], keys[j])
  }

  ghost predicate IsIndex(keys: seq<string>) {
    Sorted(keys) && PrefixFree(keys) && forall i :: 0 <= i < |keys| ==> ValidateSymbolName(keys[i])
  }

  // The keys up to place n are those that are at most name.
  ghost predicate SplitsAt(keys: seq<string>, name: string, n: nat) {
    && n <= |keys|
    && (forall i :: 0 <= i < n ==> AtMost(keys[i], name)) && forall i :: n <= i < |keys| ==> Less(name, keys[i])
  }

  // If there is a symbol that is name or lies above it, it is the last one that is at most name.
  lemma MatchIsLast(keys: seq<string>, name: string, n: nat, i: nat)
    requires IsIndex(keys) && SplitsAt(keys, name, n) && i < |keys| && IsSubSymbol(name, keys[i])
    ensures i == n - 1
  {
    SubAtMost(name, keys[i]);
    LessTotal(name, keys[i]);
    assert i < n;
    if i < n - 1 {
      Between(keys[i], keys[n - 1], name);
      assert false;
    }
  }

  // The two-step lookup finds exactly what a scan of all keys does.
  lemma LookupIsScan(keys: seq<string>, name: string, n: nat)
    requires IsIndex(keys) && SplitsAt(keys, name, n)
    ensures n > 0 && IsSubSymbol(name, keys[n - 1]) <==> exists i :: 0 <= i < |keys| && IsSubSymbol(name, keys[i])
    ensures forall i :: 0 <= i < |keys| && IsSubSymbol(name, keys[i]) ==> i == n - 1
  {
    forall i | 0 <= i < |keys| && IsSubSymbol(name, keys[i]) ensures i == n - 1 { MatchIsLast(keys, name, n, i); }
  }

  // With a character before '.' in a name, the lookup would miss a symbol.
  lemma InvalidNameMissed()
    ensures var keys := ["a", "a-b"];
            && Sorted(keys) && PrefixFree(keys) && SplitsAt(keys, "a.b", 2)
            && IsSubSymbol("a.b", keys[0]) && !IsSubSymbol("a.b", keys[1])
  {
    assert "a"[1..] == "" && "a-b"[1..] == "-b" && "a.b"[1..] == ".b";
    assert Less("-b", ".b");
  }

  // If any symbol lies below name, the first one after it does.
  lemma FirstBelow(keys: seq<string>, name: string, n: nat, i: nat)
    requires IsIndex(keys) && SplitsAt(keys, name, n) && i < |keys| && IsSubSymbol(keys[i], name) && keys[i] != name
    ensures n < |keys| && IsSubSymbol(keys[n], name)
  {
    SubAtMost(keys[i], name);
    LessTotal(name, keys[i]);
    assert n <= i;
    Between(name, keys[n], keys[i]);
  }

  lemma KeyInserted(keys: seq<string>, name: string, n: nat)
    requires IsIndex(keys) && SplitsAt(keys, name, n) && ValidateSymbolName(name)
    requires forall i :: 0 <= i < |keys| ==> !IsSubSymbol(keys[i], name) && !IsSubSymbol(name, keys[i])
    ensures IsIndex(keys[..n] + [name] + keys[n..])
  {
    hide Less, ValidateSymbolName, IsSubSymbol;
    var now := keys[..n] + [name] + keys[n..];
    forall i, j | 0 <= i < j < |now| ensures Less(now[i], now[j]) {
      if i < n && j == n {
        assert AtMost(keys[i], name) && IsSubSymbol(name, name) by { SameSymbol(name); }
      }
    }
    assert forall i :: 0 <= i < |now| && i != n ==> now[i] == keys[if i < n then i else i - 1];
  }

  lemma SameSymbol(name: string)
    ensures IsSubSymbol(name, name)
  {
  }

  ghost function MapOf<Value>(keys: seq<string>, values: seq<Value>): map<string, Value>
    requires |keys| == |values| && Sorted(keys)
  {
    OneValue(keys);
    map i | 0 <= i < |keys| :: keys[i] := values[i]
  }

  lemma OneValue(keys: seq<string>)
    requires Sorted(keys)
    ensures forall i, j :: 0 <= i < |keys| && 0 <= j < |keys| && keys[i] == keys[j] ==> i == j
  {
    forall i, j | 0 <= i < j < |keys| ensures keys[i] != keys[j] { LessTotal(keys[i], keys[j]); }
  }

  lemma MapInserted<Value>(keys: seq<string>, values: seq<Value>, name: string, value: Value, n: nat)
    requires |keys| == |values| && n <= |keys| && Sorted(keys) && Sorted(keys[..n] + [name] + keys[n..])
    requires name !in keys
    ensures MapOf(keys[..n] + [name] + keys[n..], values[..n] + [value] + values[n..]) == MapOf(keys, values)[name := value]
  {
    hide Less, Sorted, MapOf;
    var ks, vs := keys[..n] + [name] + keys[n..], values[..n] + [value] + values[n..];
    MapFacts(keys, values);
    MapFacts(ks, vs);
    Places(keys, name, n);
    Places(values, value, n);
    var before, now := MapOf(keys, values), MapOf(ks, vs);
    assert now.Keys == (before[name := value]).Keys by {
      forall k | k in keys ensures k in ks { var i :| 0 <= i < |keys| && keys[i] == k; assert ks[if i < n then i else i + 1] == k; }
      forall k | k in ks && k != name ensures k in keys { var i :| 0 <= i < |ks| && ks[i] == k; }
      assert ks[n] == name;
    }
    forall k | k in now ensures now[k] == before[name := value][k] {
      var i :| 0 <= i < |ks| && ks[i] == k;
      if i != n { assert keys[if i < n then i else i - 1] == k; }
    }
  }

  // Where the elements are once one has been inserted
  lemma Places<T>(s: seq<T>, x: T, n: nat)
    requires n <= |s|
    ensures var t := s[..n] + [x] + s[n..];
            |t| == |s| + 1 && t[n] == x && forall i :: 0 <= i < |t| && i != n ==> t[i] == s[if i < n then i else i - 1]
  {
  }

  lemma MapFacts<Value>(keys: seq<string>, values: seq<Value>)
    requires |keys| == |values| && Sorted(keys)
    ensures forall k :: k in MapOf(keys, values) <==> k in keys
    ensures forall i :: 0 <= i < |keys| ==> keys[i] in MapOf(keys, values) && MapOf(keys, values)[keys[i]] == values[i]
  {
    hide Sorted;
    OneValue(keys);
  }

  // ---------- the index ----------

  class DescriptorIndex<Value> {
    // The map from symbols to values, in the order of its keys
    var keys: seq<string>
    var values: seq<Value>

    ghost predicate Valid()
      reads this
    {
      |values| == |keys| && IsIndex(keys)
    }

    ghost function Contents(): map<string, Value>
      requires Valid()
      reads this
    {
      MapOf(keys, values)
    }

    constructor ()
      ensures Valid() && Contents() == map[]
    {
      keys, values := [], [];
    }

    // The number of symbols that are at most name; the last of them is the one before this place.
    method FindLastLessOrEqual(name: string) returns (n: nat)
      requires Valid()
      ensures SplitsAt(keys, name, n)
    {
      n := 0;
      while n < |keys| && AtMost(keys[n], name)
        invariant n <= |keys| && forall i :: 0 <= i < n ==> AtMost(keys[i], name)
      {
        n := n + 1;
      }
      if n < |keys| { LessTotal(keys[n], name); }
      forall i | n < i < |keys| ensures Less(name, keys[i]) { LessTransitive(name, keys[n], keys[i]); }
    }

    // The value of the one symbol that is name or lies above it
    method FindSymbol(name: string) returns (r: Option<Value>)
      requires Valid()
      ensures forall k :: k in Contents() && IsSubSymbol(name, k) ==> r == Some(Contents()[k])
      ensures (forall k :: k in Contents() ==> !IsSubSymbol(name, k)) ==> r == None
    {
      var n := FindLastLessOrEqual(name);
      LookupIsScan(keys, name, n);
      r := if n > 0 && IsSubSymbol(name, keys[n - 1]) then Some(values[n - 1]) else None;
    }

    // Adds a symbol unless its name is not valid or it is in conflict with one that is there.
    method AddSymbol(name: string, value: Value) returns (ok: bool)
      requires Valid()
      modifies this
      ensures Valid()
      ensures ok <==> ValidateSymbolName(name) && forall k :: k in old(Contents()) ==> !IsSubSymbol(name, k) && !IsSubSymbol(k, name)
      ensures old(Contents()) == map[] ==> (ok <==> forall i :: 0 <= i < |name| ==> NameChar(name[i]))
      ensures Contents() == if ok then old(Contents())[name := value] else old(Contents())
    {
      ValidNames(name);
      if !ValidateSymbolName(name) { return false; }
      var n := FindLastLessOrEqual(name);
      LookupIsScan(keys, name, n);
      if n > 0 && IsSubSymbol(name, keys[n - 1]) {
        assert keys[n - 1] in Contents();
        return false;
      }
      if n < |keys| && IsSubSymbol(keys[n], name) {
        assert keys[n] in Contents();
        return false;
      }
      forall i | 0 <= i < |keys| ensures !IsSubSymbol(keys[i], name) && !IsSubSymbol(name, keys[i]) {
        if IsSubSymbol(keys[i], name) { FirstBelow(keys, name, n, i); }
      }
      KeyInserted(keys, name, n);
      MapInserted(keys, values, name, value, n);
      keys, values := keys[..n] + [name] + keys[n..], values[..n] + [value] + values[n..];
      ok := true;
    }
  }
}
