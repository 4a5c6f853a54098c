/**
 * Qualified names of the form `scope:identifier` (src/name.rs).
 *
 * A name stores its full text and the index of its separator. The only way to
 * build one is `NewName`, which accepts a string exactly when the text before
 * its first `:` and the text after it are both valid segments.
 */
module Names {
  import opened Wrappers

  predicate IsAsciiLowercase(c: char) {
    'a' <= c <= 'z'
  }

  predicate IsAsciiAlphanumeric(c: char) {
    'a' <= c <= 'z' || 'A' <= c <= 'Z' || '0' <= c <= '9'
  }

  /** A character allowed after the first one of a segment. */
  predicate IsSegmentTailChar(c: char) {
    IsAsciiAlphanumeric(c) || c == '_'
  }

  /**
   * `chars.all(..)` over the rest of a segment: walks the characters and
   * stops at the first one that is neither alphanumeric nor `_`.
   */
  function AllTailChars(s: string): (r: bool)
    ensures r <==> forall i :: 0 <= i < |s| ==> IsSegmentTailChar(s[i])
  {
    if s == [] then true
    else if !IsSegmentTailChar(s[0]) then false
    else AllTailChars(s[1..])
  }

  /**
   * `is_valid_name_segment`: non-empty, an ASCII lowercase letter first, then
   * only ASCII alphanumerics and underscores. A valid segment has no `:`.
   */
  function IsValidNameSegment(segment: string): (r: bool)
    ensures r <==> |segment| > 0 && IsAsciiLowercase(segment[0])
                   && forall i :: 1 <= i < |segment| ==> IsSegmentTailChar(segment[i])
    ensures r ==> ':' !in segment
  {
    if segment == [] then false
    else if !IsAsciiLowercase(segment[0]) then false
    else
      assert forall i :: 1 <= i < |segment| ==> segment[i] == segment[1..][i - 1];
      AllTailChars(segment[1..])
  }

  /** `str::find` for one character: the index of its first occurrence, if any. */
  function FindFirst(s: string, c: char): (r: Option<nat>)
    ensures r.None? <==> c !in s
    ensures r.Some? ==> r.value < |s| && s[r.value] == c && c !in s[..r.value]
  {
    if s == [] then None
    else if s[0] == c then Some(0)
    else match FindFirst(s[1..], c)
      case None => None
      case Some(k) =>
        assert s[..k + 1] == [s[0]] + s[1..][..k];
        Some(k + 1)
  }

  /** The fields of src/name.rs's `Name`: the separator index and the full text. */
  datatype Name = Name(separator: nat, name: string) {
    /** What `new` establishes: a `:` at `separator` with a valid segment on each side. */
    predicate Valid() {
      && separator < |name|
      && name[separator] == ':'
      && IsValidNameSegment(name[..separator])
      && IsValidNameSegment(name[separator + 1..])
    }
  }

  /** The names a program can hold: the Rust fields are private and only `new` fills them. */
  type ValidName = n: Name | n.Valid() witness Name(1, "a:a")

  /** `Name::new`: split at the first `:` and check both sides. */
  function NewName(s: string): (r: Option<ValidName>)
    ensures ':' !in s ==> r.None?
    ensures r.Some? ==> r.value.name == s && FindFirst(s, ':') == Some(r.value.separator)
  {
    match FindFirst(s, ':')
    case None => None
    case Some(sep) =>
      if !IsValidNameSegment(s[..sep]) || !IsValidNameSegment(s[sep + 1..]) then None
      else Some(Name(sep, s))
  }

  /** `From<&'static str>`: `new` followed by `expect`, which panics on an invalid literal. */
  function FromLiteral(s: string): (n: ValidName)
    requires NewName(s).Some?
    ensures Qualified(n) == s
  {
    NewName(s).value
  }

  /** `scope()`: the text before the separator. */
  function Scope(n: ValidName): (r: string)
    ensures IsValidNameSegment(r)
    ensures ':' !in r
  {
    n.name[..n.separator]
  }

  /** `unqualified()`: the text from the separator on, the `:` included. */
  function Unqualified(n: ValidName): (r: string)
    ensures |r| >= 2 && r[0] == ':'
    ensures IsValidNameSegment(r[1..])
  {
    assert n.name[n.separator..][1..] == n.name[n.separator + 1..];
    n.name[n.separator..]
  }

  /** `qualified()`: the full text, which the scope and the unqualified part make up. */
  function Qualified(n: ValidName): (r: string)
    ensures r == Scope(n) + Unqualified(n)
    ensures r[|Scope(n)|] == ':'
  {
    assert n.name == n.name[..n.separator] + n.name[n.separator..];
    n.name
  }

  /**
   * `PartialEq for Name`: two names are equal when their full texts are, which
   * for names `new` built is plain equality of the separator and the text.
   */
  function NameEq(a: ValidName, b: ValidName): (r: bool)
    ensures r <==> a == b
  {
    RoundTrip(a);
    RoundTrip(b);
    Qualified(a) == Qualified(b)
  }

  /** `find` on a string that starts with a colon-free prefix stops right after it. */
  lemma {:induction false} FindFirstAfterPrefix(prefix: string, c: char, rest: string)
    requires c !in prefix
    ensures FindFirst(prefix + [c] + rest, c) == Some(|prefix|)
  {
    if prefix != [] {
      assert (prefix + [c] + rest)[1..] == prefix[1..] + [c] + rest;
      FindFirstAfterPrefix(prefix[1..], c, rest);
    }
  }

  /** The stored separator of a valid name is the first `:` of its text, so the `:` is unique. */
  lemma SeparatorIsFirstColon(n: ValidName)
    ensures FindFirst(n.name, ':') == Some(n.separator)
    ensures forall i :: 0 <= i < |n.name| && n.name[i] == ':' ==> i == n.separator
  {
    assert n.name == n.name[..n.separator] + [':'] + n.name[n.separator + 1..];
    FindFirstAfterPrefix(n.name[..n.separator], ':', n.name[n.separator + 1..]);
  }

  /** Two valid segments joined by a `:` are accepted, with the separator right after the scope. */
  lemma NewNameAccepts(scope: string, identifier: string)
    requires IsValidNameSegment(scope) && IsValidNameSegment(identifier)
    ensures NewName(scope + ":" + identifier) == Some(Name(|scope|, scope + ":" + identifier))
  {
    var s := scope + ":" + identifier;
    FindFirstAfterPrefix(scope, ':', identifier);
    assert s[..|scope|] == scope;
    assert s[|scope| + 1..] == identifier;
  }

  /**
   * `new` succeeds exactly when some `:` splits the string into two valid
   * segments; the name it builds then splits the string at that `:`.
   */
  lemma NewNameCharacterisation(s: string)
    ensures NewName(s).Some? <==>
      exists k :: 0 <= k < |s| && s[k] == ':' && IsValidNameSegment(s[..k]) && IsValidNameSegment(s[k + 1..])
    ensures NewName(s).Some? ==>
      var n := NewName(s).value;
      s == Scope(n) + ":" + Unqualified(n)[1..] && IsValidNameSegment(Unqualified(n)[1..])
  {
    if k :| 0 <= k < |s| && s[k] == ':' && IsValidNameSegment(s[..k]) && IsValidNameSegment(s[k + 1..]) {
      assert s == s[..k] + [':'] + s[k + 1..];
      FindFirstAfterPrefix(s[..k], ':', s[k + 1..]);
    }
    if NewName(s).Some? {
      var n := NewName(s).value;
      assert Unqualified(n) == [':'] + Unqualified(n)[1..];
    }
  }

  /** Round trip: parsing a name's qualified text gives back that same name. */
  lemma RoundTrip(n: ValidName)
    ensures NewName(Qualified(n)) == Some(n)
  {
    SeparatorIsFirstColon(n);
  }

  /**
   * Equality by qualified text is plain equality of names, so equal names
   * also agree on their scope and unqualified part.
   */
  lemma NameEqIsEquality(a: ValidName, b: ValidName)
    ensures NameEq(a, b) <==> a == b
    ensures NameEq(a, b) ==> Scope(a) == Scope(b) && Unqualified(a) == Unqualified(b)
  {
    if NameEq(a, b) {
      RoundTrip(a);
      RoundTrip(b);
    }
  }

  /** The segment test vectors of src/lib.rs. */
  lemma SegmentExamples()
    ensures IsValidNameSegment("valid_name")
    ensures !IsValidNameSegment("")
    ensures !IsValidNameSegment("Invalid")
    ensures !IsValidNameSegment("invalid-name")
    ensures !IsValidNameSegment("foo:bar")
  {
    var valid := "valid_name";
    assert forall i :: 1 <= i < |valid| ==> IsSegmentTailChar(valid[i]);
    assert !IsAsciiLowercase("Invalid"[0]);
    assert !IsSegmentTailChar("invalid-name"[7]);
    assert !IsSegmentTailChar("foo:bar"[3]);
  }

  /** A string whose first `:` has an invalid segment on either side is rejected. */
  lemma NewNameRejectsAt(s: string, k: nat)
    requires k < |s| && s[k] == ':' && ':' !in s[..k]
    requires !IsValidNameSegment(s[..k]) || !IsValidNameSegment(s[k + 1..])
    ensures NewName(s).None?
  {
    assert s == s[..k] + [':'] + s[k + 1..];
    FindFirstAfterPrefix(s[..k], ':', s[k + 1..]);
  }

  // The name test vectors of src/lib.rs, one lemma each.

  lemma AcceptsScopeName()
    ensures NewName("scope:name").Some?
  {
    var scope, identifier := "scope", "name";
    assert forall i :: 1 <= i < |scope| ==> IsSegmentTailChar(scope[i]);
    assert forall i :: 1 <= i < |identifier| ==> IsSegmentTailChar(identifier[i]);
    assert scope + ":" + identifier == "scope:name";
    NewNameAccepts(scope, identifier);
  }

  lemma AcceptsUnderscore()
    ensures NewName("scope:name_bar").Some?
  {
    var scope, identifier := "scope", "name_bar";
    assert forall i :: 1 <= i < |scope| ==> IsSegmentTailChar(scope[i]);
    assert forall i :: 1 <= i < |identifier| ==> IsSegmentTailChar(identifier[i]);
    assert scope + ":" + identifier == "scope:name_bar";
    NewNameAccepts(scope, identifier);
  }

  lemma RejectsHyphen()
    ensures NewName("scope:name-bar").None?
  {
    assert !IsSegmentTailChar("scope:name-bar"[10]);
    NewNameRejectsAt("scope:name-bar", 5);
  }

  lemma RejectsEmptyIdentifier()
    ensures NewName("scope:").None?
  {
    NewNameRejectsAt("scope:", 5);
  }

  lemma RejectsEmptyScope()
    ensures NewName(":name").None?
  {
    NewNameRejectsAt(":name", 0);
  }

  lemma RejectsSecondColon()
    ensures NewName("scope:name:extra").None?
  {
    assert !IsSegmentTailChar("scope:name:extra"[10]);
    NewNameRejectsAt("scope:name:extra", 5);
  }

  lemma RejectsPunctuation()
    ensures NewName("scope:name!").None?
  {
    assert !IsSegmentTailChar("scope:name!"[10]);
    NewNameRejectsAt("scope:name!", 5);
  }

  lemma RejectsUppercaseScope()
    ensures NewName("Scope:name").None?
  {
    NewNameRejectsAt("Scope:name", 5);
  }
}
