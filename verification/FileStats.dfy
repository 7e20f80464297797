/** The file summary card (`client/src/components/FileStats.tsx`): the file
    type shown for a name and the status label. */
module FileStats {
  import opened JsBuiltins

  /** The last part of a split is the text after the last separator (the
      whole string when there is none), and it holds no separator. */
  lemma {:induction false} SplitLast(s: string, sep: char)
    ensures var last := Split(s, sep)[|Split(s, sep)| - 1];
      && |last| <= |s| && last == s[|s| - |last|..] && sep !in last
      && (sep in s ==> |last| < |s| && s[|s| - |last| - 1] == sep)
      && (sep !in s ==> last == s)
  {
    if s != [] {
      var init := s[..|s| - 1];
      SplitLast(init, sep);
      var c := s[|s| - 1];
      assert s == init + [c];
      var parts := Split(init, sep);
      var last := parts[|parts| - 1];
      if c != sep {
        var last' := last + [c];
        assert Split(s, sep)[|Split(s, sep)| - 1] == last';
        assert s[|s| - |last'|..] == init[|init| - |last|..] + [c];
        assert sep in s <==> sep in init;
        if sep in init {
          assert s[|s| - |last'| - 1] == init[|init| - |last| - 1];
        }
      }
    }
  }

  /** `getFileExtension()`: `'N/A'` for a name without a dot; otherwise the
      text after the last dot, upper-cased (empty when the name ends in a dot). */
  function FileExtension(name: string): (r: string)
    ensures '.' !in name ==> r == "N/A"
    ensures '.' in name ==>
      && |r| < |name| && name[|name| - |r| - 1] == '.'
      && r == ToUpperAscii(name[|name| - |r|..])
    ensures '.' !in r
  {
    var parts := Split(name, '.');
    LastPartAfterLastDot(name);
    if |parts| > 1 then ToUpperAscii(parts[|parts| - 1]) else "N/A"
  }

  /** The facts `getFileExtension` rests on: there are several parts exactly
      when the name has a dot, and then the last part follows a dot and ends
      the name; upper-casing it adds no dot. */
  lemma LastPartAfterLastDot(name: string)
    ensures var parts := Split(name, '.');
      var last := parts[|parts| - 1];
      && (|parts| > 1 <==> '.' in name)
      && ('.' in name ==> |last| < |name| && name[|name| - |last| - 1] == '.' && last == name[|name| - |last|..])
      && |ToUpperAscii(last)| == |last| && '.' !in ToUpperAscii(last)
  {
    var parts := Split(name, '.');
    SplitCount(name, '.');
    CountZero(name, '.');
    SplitLast(name, '.');
    UpperHasNoDot(parts[|parts| - 1]);
  }

  /** Upper-casing cannot create a dot. */
  lemma UpperHasNoDot(s: string)
    requires '.' !in s
    ensures '.' !in ToUpperAscii(s)
  {
    var r := ToUpperAscii(s);
    forall i | 0 <= i < |r|
      ensures r[i] != '.'
    {
      assert r[i] == s[i] || 'A' as int <= r[i] as int <= 'Z' as int;
    }
  }

  /** The dot before the extension is the last dot of the name. */
  lemma ExtensionFollowsLastDot(name: string, i: nat)
    requires i < |name| && name[i] == '.'
    ensures i <= |name| - |FileExtension(name)| - 1
  {
  }

  /** A name with a single leading dot, such as `.env`, has the rest of the
      name as its type. */
  lemma LeadingDotExtension(rest: string)
    requires '.' !in rest
    ensures FileExtension("." + rest) == ToUpperAscii(rest)
  {
    var name := "." + rest;
    assert name[0] == '.';
    ExtensionFollowsLastDot(name, 0);
    assert name[1..] == rest;
  }

  /** A name ending in a dot has the empty type, not `'N/A'`. */
  lemma TrailingDotExtension(stem: string)
    ensures FileExtension(stem + ".") == ""
  {
    var name := stem + ".";
    assert name[|stem|] == '.';
    ExtensionFollowsLastDot(name, |stem|);
  }

  /** The status card's value: `'Encrypted'` exactly when `encrypted` was
      passed as true; the prop defaults to false. */
  function StatusLabel(encrypted: Option<bool>): (r: string)
    ensures r == "Encrypted" <==> encrypted == Some(true)
    ensures r == "Encrypted" || r == "Ready"
  {
    var flag := if encrypted.Some? then encrypted.value else false;
    if flag then "Encrypted" else "Ready"
  }
}
