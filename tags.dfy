/** Tag utilities: the escaping serialiser for storage keys, the scanning
    deserialiser that inverts it, and the ancestor (prefix) relation used by
    hierarchical invalidation. */
module Tags {
  import opened Types

  // ---------------------------------------------------------------------------
  // Serialisation
  // ---------------------------------------------------------------------------

  /** `s.replace(c, with)` for a one-character pattern. */
  function ReplaceChar(s: string, c: char, with: string): string
  {
    if s == [] then [] else (if s[0] == c then with else [s[0]]) + ReplaceChar(s[1..], c, with)
  }

  /** The escape of one part: backslashes first, then colons, in the order of
      the escape table. */
  function Escape(part: string): string
  {
    ReplaceChar(ReplaceChar(part, '\\', "\\\\"), ':', "\\:")
  }

  /** The escape table: `\` becomes `\\`, `:` becomes `\:`. */
  function EscapeChar(c: char): string
  {
    if c == '\\' then "\\\\" else if c == ':' then "\\:" else [c]
  }

  /** Escaping character by character, the reference for Escape. */
  function EscapeEach(s: string): string
  {
    if s == [] then [] else EscapeChar(s[0]) + EscapeEach(s[1..])
  }

  /** `sep.join(parts)`. */
  function Join(parts: seq<string>, sep: string): string
  {
    if |parts| == 0 then ""
    else if |parts| == 1 then parts[0]
    else parts[0] + sep + Join(parts[1..], sep)
  }

  function EscapeParts(tag: Tag): (r: seq<string>)
    ensures |r| == |tag|
  {
    if tag == [] then [] else [Escape(tag[0])] + EscapeParts(tag[1..])
  }

  /** serialize_tag: escape every part, join with `:`. */
  function SerializeTag(tag: Tag): string
  {
    Join(EscapeParts(tag), ":")
  }

  lemma {:induction false} ReplaceCharConcat(a: string, b: string, c: char, with: string)
    ensures ReplaceChar(a + b, c, with) == ReplaceChar(a, c, with) + ReplaceChar(b, c, with)
  {
    if a != [] {
      assert (a + b)[1..] == a[1..] + b;
      ReplaceCharConcat(a[1..], b, c, with);
    } else {
      assert a + b == b;
    }
  }

  /** The chain of two replacements escapes each character independently:
      replacing `\` first means the `\` introduced for a colon is never
      doubled. */
  lemma {:induction false} EscapeIsPerCharacter(s: string)
    ensures Escape(s) == EscapeEach(s)
  {
    if s != [] {
      var first := if s[0] == '\\' then "\\\\" else [s[0]];
      var rest := ReplaceChar(s[1..], '\\', "\\\\");
      assert ReplaceChar(s, '\\', "\\\\") == first + rest;
      ReplaceCharConcat(first, rest, ':', "\\:");
      assert ReplaceChar(first, ':', "\\:") == EscapeChar(s[0]) by {
        if s[0] == '\\' {
          assert first == ['\\'] + ['\\'];
          assert ReplaceChar(first, ':', "\\:") == ['\\'] + ReplaceChar(['\\'], ':', "\\:");
        }
      }
      EscapeIsPerCharacter(s[1..]);
    }
  }

  // ---------------------------------------------------------------------------
  // Deserialisation
  // ---------------------------------------------------------------------------

  /** The unescape table: `\\` is `\`, `\:` is `:`; anything else is not an
      escape pair. */
  function UnescapePair(pair: string): (r: Option<string>)
    requires |pair| == 2
    ensures r.Some? <==> IsEscapePair(pair[0], pair[1])
    ensures r.Some? ==> r.value == [pair[1]]
  {
    if pair == "\\\\" then Some("\\")
    else if pair == "\\:" then Some(":")
    else None
  }

  predicate IsEscapePair(c: char, d: char) { c == '\\' && (d == '\\' || d == ':') }

  /** Glue `c` to the front of the first part. */
  function Prepend(c: string, parts: seq<string>): seq<string>
    requires |parts| >= 1
  {
    [c + parts[0]] + parts[1..]
  }

  lemma PrependCompose(a: string, b: string, parts: seq<string>)
    requires |parts| >= 1
    ensures Prepend(a, Prepend(b, parts)) == Prepend(a + b, parts)
    ensures Prepend("", parts) == parts
  {
    assert a + (b + parts[0]) == (a + b) + parts[0];
    assert "" + parts[0] == parts[0];
  }

  /** Gluing onto a fresh empty part gives a part of its own. */
  lemma PrependNewPart(c: string, parts: seq<string>)
    ensures Prepend(c, [""] + parts) == [c] + parts
  {
    assert c + "" == c;
    assert ([""] + parts)[1..] == parts;
  }

  /** The parts a serialised tag denotes, read from the left: an escape pair
      stands for its character, a backslash before anything else is kept
      literally, an unescaped `:` starts a new part. */
  function SplitUnescaped(s: string): (parts: seq<string>)
    ensures |parts| >= 1
    decreases |s|
  {
    if s == [] then [""]
    else if |s| >= 2 && IsEscapePair(s[0], s[1]) then Prepend([s[1]], SplitUnescaped(s[2..]))
    else if s[0] == ':' then [""] + SplitUnescaped(s[1..])
    else Prepend([s[0]], SplitUnescaped(s[1..]))
  }

  /** deserialize_tag: the scanning loop. */
  method DeserializeTag(serialized: string) returns (tag: Tag)
    ensures tag == SplitUnescaped(serialized)
    ensures |tag| >= 1
  {
    var parts: seq<string> := [];
    var current := "";
    var i := 0;
    PrependCompose("", "", SplitUnescaped(serialized));
    while i < |serialized|
      invariant 0 <= i <= |serialized|
      invariant SplitUnescaped(serialized) == parts + Prepend(current, SplitUnescaped(serialized[i..]))
    {
      var rest := serialized[i..];
      assert rest[0] == serialized[i];
      if serialized[i] == '\\' {
        if i + 1 < |serialized| {
          var escaped := serialized[i..i + 2];
          assert escaped[0] == rest[0] && escaped[1] == rest[1];
          var unescaped := UnescapePair(escaped);
          if unescaped.Some? {
            assert rest[2..] == serialized[i + 2..];
            assert SplitUnescaped(rest) == Prepend(unescaped.value, SplitUnescaped(serialized[i + 2..]));
            PrependCompose(current, unescaped.value, SplitUnescaped(serialized[i + 2..]));
            current := current + unescaped.value;
            i := i + 2;
            continue;
          }
        }
        assert rest[1..] == serialized[i + 1..];
        assert SplitUnescaped(rest) == Prepend([serialized[i]], SplitUnescaped(serialized[i + 1..]));
        PrependCompose(current, [serialized[i]], SplitUnescaped(serialized[i + 1..]));
        current := current + [serialized[i]];
        i := i + 1;
      } else if serialized[i] == ':' {
        assert rest[1..] == serialized[i + 1..];
        assert SplitUnescaped(rest) == [""] + SplitUnescaped(serialized[i + 1..]);
        PrependNewPart(current, SplitUnescaped(serialized[i + 1..]));
        PrependCompose("", "", SplitUnescaped(serialized[i + 1..]));
        parts := parts + [current];
        current := "";
        i := i + 1;
      } else {
        assert rest[1..] == serialized[i + 1..];
        assert SplitUnescaped(rest) == Prepend([serialized[i]], SplitUnescaped(serialized[i + 1..]));
        PrependCompose(current, [serialized[i]], SplitUnescaped(serialized[i + 1..]));
        current := current + [serialized[i]];
        i := i + 1;
      }
    }
    assert serialized[i..] == [];
    assert Prepend(current, [""]) == [current] by { assert current + "" == current; }
    tag := parts + [current];
  }

  /** Reading an escaped part followed by anything glues the part to the
      front of what the rest denotes. */
  lemma {:induction false} SplitAfterEscapedPart(p: string, tail: string)
    ensures SplitUnescaped(EscapeEach(p) + tail) == Prepend(p, SplitUnescaped(tail))
  {
    if p == [] {
      assert EscapeEach(p) + tail == tail;
      PrependCompose("", "", SplitUnescaped(tail));
    } else {
      var rest := EscapeEach(p[1..]) + tail;
      SplitAfterEscapedPart(p[1..], tail);
      PrependCompose([p[0]], p[1..], SplitUnescaped(tail));
      var s := EscapeChar(p[0]) + rest;
      assert EscapeEach(p) + tail == s;
      assert [p[0]] + p[1..] == p;
      if p[0] == '\\' || p[0] == ':' {
        assert s[..2] == EscapeChar(p[0]) && s[2..] == rest;
      } else {
        assert s[1..] == rest;
      }
    }
  }

  /** Round trip: every non-empty tag, whatever its parts contain, comes back
      from its serialisation. */
  lemma {:induction false} DeserializeSerialize(tag: Tag)
    requires |tag| >= 1
    ensures SplitUnescaped(SerializeTag(tag)) == tag
  {
    var head := EscapeEach(tag[0]);
    EscapeIsPerCharacter(tag[0]);
    assert EscapeParts(tag)[0] == head;
    if |tag| == 1 {
      assert SerializeTag(tag) == head;
      assert head + "" == head;
      SplitAfterEscapedPart(tag[0], "");
      assert Prepend(tag[0], [""]) == tag by { assert tag[0] + "" == tag[0]; }
    } else {
      var rest := SerializeTag(tag[1..]);
      assert EscapeParts(tag)[1..] == EscapeParts(tag[1..]);
      assert SerializeTag(tag) == head + ":" + rest;
      assert head + ":" + rest == head + (":" + rest);
      SplitAfterEscapedPart(tag[0], ":" + rest);
      assert (":" + rest)[1..] == rest;
      assert SplitUnescaped(":" + rest) == [""] + SplitUnescaped(rest);
      DeserializeSerialize(tag[1..]);
      PrependNewPart(tag[0], tag[1..]);
      assert [tag[0]] + tag[1..] == tag;
    }
  }

  /** Serialisation is injective on non-empty tags. */
  lemma SerializeInjective(a: Tag, b: Tag)
    requires |a| >= 1 && |b| >= 1
    requires SerializeTag(a) == SerializeTag(b)
    ensures a == b
  {
    DeserializeSerialize(a);
    DeserializeSerialize(b);
  }

  /** The empty tag serialises to "" but "" reads back as one empty part. */
  lemma EmptyTagDoesNotRoundTrip()
    ensures SerializeTag([]) == ""
    ensures SplitUnescaped("") == [""]
    ensures SplitUnescaped(SerializeTag([])) != []
  {
  }

  /** A single part serialises to itself and parts are joined with `:`. */
  lemma KnownSerializations()
    ensures SerializeTag(["user"]) == "user"
    ensures SerializeTag(["user", "123"]) == "user:123"
  {
    assert Escape("user") == "user" by { EscapeIsPerCharacter("user"); }
    assert Escape("123") == "123" by { EscapeIsPerCharacter("123"); }
    assert EscapeParts(["user"]) == ["user"];
    assert EscapeParts(["user", "123"]) == ["user", "123"];
  }

  /** A backslash that escapes nothing, trailing or not, is kept literally. */
  lemma LoneBackslashIsLiteral()
    ensures SplitUnescaped("a\\") == ["a\\"]
    ensures SplitUnescaped("\\x") == ["\\x"]
  {
    OneCharPart('\\');
    OneCharPart('x');
    var s1 := "a\\";
    assert s1[1..] == "\\";
    assert SplitUnescaped(s1) == Prepend("a", ["\\"]);
    assert "a" + "\\" == s1;
    var s2 := "\\x";
    assert !IsEscapePair(s2[0], s2[1]);
    assert s2[1..] == "x";
    assert SplitUnescaped(s2) == Prepend("\\", ["x"]);
    assert "\\" + "x" == s2;
  }

  /** A single non-colon character is a part of its own. */
  lemma OneCharPart(c: char)
    requires c != ':'
    ensures SplitUnescaped([c]) == [[c]]
  {
    assert [c][1..] == [];
    assert [c] + "" == [c];
  }

  /** An escaped colon stays inside its part. */
  lemma EscapedColonStaysInPart()
    ensures SplitUnescaped("a\\:b") == ["a:b"]
  {
    OneCharPart('b');
    var t := "\\:b";
    assert IsEscapePair(t[0], t[1]) && t[2..] == "b";
    assert SplitUnescaped(t) == Prepend(":", ["b"]);
    assert ":" + "b" == ":b";
    var s := "a\\:b";
    assert s[1..] == t;
    assert SplitUnescaped(s) == Prepend("a", [":b"]);
    assert "a" + ":b" == "a:b";
  }

  // ---------------------------------------------------------------------------
  // Ancestors
  // ---------------------------------------------------------------------------

  /** is_tag_prefix. */
  predicate IsTagPrefix(parent: Tag, child: Tag)
  {
    if |parent| > |child| then false else child[..|parent|] == parent
  }

  /** `parent` is a prefix of `child` exactly when `child` extends it. */
  lemma TagPrefixIffExtension(parent: Tag, child: Tag)
    ensures IsTagPrefix(parent, child) <==> exists suffix :: child == parent + suffix
  {
    if IsTagPrefix(parent, child) {
      assert child == parent + child[|parent|..];
    }
    if exists suffix :: child == parent + suffix {
      var suffix :| child == parent + suffix;
      assert child[..|parent|] == parent;
    }
  }

  /** The prefix relation is reflexive, transitive, and never holds for a
      longer parent. */
  lemma TagPrefixOrder(a: Tag, b: Tag, c: Tag)
    ensures IsTagPrefix(a, a)
    ensures IsTagPrefix(a, b) && IsTagPrefix(b, c) ==> IsTagPrefix(a, c)
    ensures |a| > |b| ==> !IsTagPrefix(a, b)
    ensures IsTagPrefix(a, b) && IsTagPrefix(b, a) ==> a == b
  {
    if IsTagPrefix(a, b) && IsTagPrefix(b, c) {
      assert c[..|a|] == c[..|b|][..|a|];
    }
  }
}
