/** bamutils tag: a chain of per-read transformers (name suffix, Cufflinks'
    XS:A strand tag, an arbitrary typed tag) that every read of the input
    passes through, in input order. */
module TagChain {
  import opened Wrappers
  import opened PyText
  import opened Reads

  /** The tag that `-tag KEY:TYPE:VALUE` adds. */
  datatype TagSpec = TagSpec(key: string, value: TagValue)

  /** The value part of `-tag`, converted as the key part's last two
      characters ask: `:i` int, `:f` float, anything else the raw text. */
  function TagValueOf(key0: string, text: string): (r: Result<TagValue, PyError>)
    ensures r.Err? ==> r.error == ValueError
  {
    var kind := Lower(if |key0| >= 2 then key0[|key0| - 2..] else key0);
    if kind == ":i" then
      match ParseInt(text)
      case None => Err(ValueError)
      case Some(n) => Ok(IntV(n))
    else if kind == ":f" then
      if IsFloatLiteral(text) then Ok(FloatV(text)) else Err(ValueError)
    else Ok(StrV(text))
  }

  /** `Tag.__init__`: split off the value at the last `:`, convert it, and cut
      the key at its first `:`. Without any `:` the missing value part raises
      IndexError. */
  function ParseTagArg(tag: string): (r: Result<TagSpec, PyError>)
    ensures ':' !in tag ==> r == Err(IndexError)
    ensures r.Err? ==> r.error == IndexError || r.error == ValueError
    ensures r.Ok? ==> ':' !in r.value.key && r.value.key <= tag
  {
    var spl := RSplitOnce(tag, ':');
    if |spl| < 2 then Err(IndexError)
    else
      match TagValueOf(spl[0], spl[1])
      case Err(e) => Err(e)
      case Ok(v) =>
        var key := if ':' in spl[0] then Split(spl[0], ':')[0] else spl[0];
        assert key <= spl[0] && ':' !in key by {
          SplitHeadIsPrefix(spl[0], ':');
          SplitPieces(spl[0], ':');
        }
        Ok(TagSpec(key, v))
  }

  /** The first piece of a split is a prefix of the text. */
  lemma {:induction false} SplitHeadIsPrefix(s: string, sep: char)
    ensures Split(s, sep)[0] <= s
  {
    if s != [] {
      SplitHeadIsPrefix(s[1..], sep);
    }
  }

  /** The argument read back: the part before the last `:` gives the key and
      the type, the part after it the value. */
  lemma ParseTagArgOf(key0: string, text: string)
    requires ':' !in text
    ensures TagValueOf(key0, text).Err? ==> ParseTagArg(key0 + [':'] + text) == Err(TagValueOf(key0, text).error)
    ensures TagValueOf(key0, text).Ok? ==>
              ParseTagArg(key0 + [':'] + text) ==
              Ok(TagSpec(if ':' in key0 then Split(key0, ':')[0] else key0, TagValueOf(key0, text).value))
  {
    RSplitOnceOf(key0, ':', text);
  }

  /** A two-part argument `KEY:VALUE` tags with the raw text. */
  lemma ParseUntypedTag(key: string, text: string)
    requires ':' !in key && ':' !in text
    ensures ParseTagArg(key + ":" + text) == Ok(TagSpec(key, StrV(text)))
  {
    RSplitOnceOf(key, ':', text);
    assert key + ":" + text == key + [':'] + text;
    var kind := Lower(if |key| >= 2 then key[|key| - 2..] else key);
    assert kind != ":i" && kind != ":f" by {
      if |key| >= 2 { assert kind[0] == LowerChar(key[|key| - 2]); }
    }
  }

  /** The key and the type of `KEY:TYPE:VALUE` with a one-letter type. */
  lemma TypedKey(key: string, t: char)
    requires ':' !in key && t != ':'
    ensures var key0 := key + [':', t];
            Lower(key0[|key0| - 2..]) == [':', LowerChar(t)] &&
            ':' in key0 && Split(key0, ':')[0] == key
  {
    var key0 := key + [':', t];
    assert key0[|key0| - 2..] == [':', t];
    SplitAfterPiece(key, ':', [t]);
    assert key + [':'] + [t] == key0;
    assert key0[|key|] == ':';
  }

  /** `KEY:T:text` with a one-letter type: the key is `KEY` and the value is
      whatever converting `text` for the key `KEY:T` gives. */
  lemma ParseTypedTag(key: string, t: char, text: string)
    requires ':' !in key && ':' !in text && t != ':'
    ensures TagValueOf(key + [':', t], text).Err? ==>
              ParseTagArg(key + [':', t, ':'] + text) == Err(TagValueOf(key + [':', t], text).error)
    ensures TagValueOf(key + [':', t], text).Ok? ==>
              ParseTagArg(key + [':', t, ':'] + text) == Ok(TagSpec(key, TagValueOf(key + [':', t], text).value))
  {
    var key0 := key + [':', t];
    TypedKey(key, t);
    assert key + [':', t, ':'] + text == key0 + [':'] + text;
    ParseTagArgOf(key0, text);
  }

  /** `KEY:Z:text` (any type letter other than i and f) tags with the text. */
  lemma ParseTextTag(key: string, t: char, text: string)
    requires ':' !in key && ':' !in text && t != ':'
    requires LowerChar(t) != 'i' && LowerChar(t) != 'f'
    ensures ParseTagArg(key + [':', t, ':'] + text) == Ok(TagSpec(key, StrV(text)))
  {
    var key0 := key + [':', t];
    TypedKey(key, t);
    var kind := Lower(key0[|key0| - 2..]);
    assert kind[1] != 'i' && kind[1] != 'f';
    assert TagValueOf(key0, text) == Ok(StrV(text));
    ParseTypedTag(key, t, text);
  }

  /** `KEY:i:n` (or `KEY:I:n`) tags with the integer `n`. */
  lemma ParseIntTag(key: string, t: char, n: int)
    requires ':' !in key && (t == 'i' || t == 'I')
    ensures ParseTagArg(key + [':', t, ':'] + IntToString(n)) == Ok(TagSpec(key, IntV(n)))
  {
    var text := IntToString(n);
    IntToStringChars(n);
    assert ':' !in text;
    IntRoundTrip(n);
    ParseIntText(key, t, text, n);
  }

  /** `KEY:i:text` with an integer literal tags with its value. */
  lemma ParseIntText(key: string, t: char, text: string, n: int)
    requires ':' !in key && ':' !in text && (t == 'i' || t == 'I') && ParseInt(text) == Some(n)
    ensures ParseTagArg(key + [':', t, ':'] + text) == Ok(TagSpec(key, IntV(n)))
  {
    var key0 := key + [':', t];
    TypedKey(key, t);
    var kind := Lower(key0[|key0| - 2..]);
    assert kind == ":i";
    assert TagValueOf(key0, text) == Ok(IntV(n));
    ParseTypedTag(key, t, text);
  }

  /** `KEY:i:text` whose text is not an integer raises ValueError. */
  lemma ParseBadIntTag(key: string, t: char, text: string)
    requires ':' !in key && ':' !in text && (t == 'i' || t == 'I') && ParseInt(text).None?
    ensures ParseTagArg(key + [':', t, ':'] + text) == Err(ValueError)
  {
    var key0 := key + [':', t];
    TypedKey(key, t);
    var kind := Lower(key0[|key0| - 2..]);
    assert kind == ":i";
    assert TagValueOf(key0, text) == Err(ValueError);
    ParseTypedTag(key, t, text);
  }

  /** `KEY:f:text` tags with a float exactly when the text is a float literal. */
  lemma ParseFloatTag(key: string, t: char, text: string)
    requires ':' !in key && ':' !in text && (t == 'f' || t == 'F')
    ensures ParseTagArg(key + [':', t, ':'] + text) ==
            if IsFloatLiteral(text) then Ok(TagSpec(key, FloatV(text))) else Err(ValueError)
  {
    var key0 := key + [':', t];
    TypedKey(key, t);
    var kind := Lower(key0[|key0| - 2..]);
    assert kind == ":f" && kind != ":i";
    ParseTypedTag(key, t, text);
    if IsFloatLiteral(text) {
      assert TagValueOf(key0, text) == Ok(FloatV(text));
    } else {
      assert TagValueOf(key0, text) == Err(ValueError);
    }
  }

  // ---------------------------------------------------------------------
  // The transformers

  /** `Suffix.filter` on one read. */
  function WithSuffix(r: Read, suffix: string): Read {
    r.(qname := r.qname + suffix)
  }

  /** `Tag.filter` on one read. */
  function WithTag(r: Read, spec: TagSpec): Read {
    r.(tags := r.tags + [(spec.key, spec.value)])
  }

  /** The strand tag CufflinksXS adds to a mapped read. */
  function XSTag(r: Read): Tag {
    ("XS:A", StrV(if IsReverse(r) then "-" else "+"))
  }

  /** The tag list `CufflinksXS.filter` gives a read. */
  function XSTags(r: Read): seq<Tag> {
    if IsUnmapped(r) then r.tags else r.tags + [XSTag(r)]
  }

  /** `CufflinksXS.filter` on one read: copy the tags one by one, then add
      the strand tag unless the read is unmapped. */
  method CufflinksXS(r: Read) returns (newtags: seq<Tag>)
    ensures newtags == XSTags(r)
  {
    newtags := [];
    var i := 0;
    while i < |r.tags|
      invariant 0 <= i <= |r.tags|
      invariant newtags == r.tags[..i]
    {
      newtags := newtags + [r.tags[i]];
      i := i + 1;
    }
    assert r.tags[..i] == r.tags;
    if !IsUnmapped(r) {
      if IsReverse(r) {
        newtags := newtags + [("XS:A", StrV("-"))];
      } else {
        newtags := newtags + [("XS:A", StrV("+"))];
      }
    }
  }

  /** CufflinksXS keeps the old tags in order and adds exactly one tag, the
      read's strand, to a mapped read and none to an unmapped one. */
  lemma XSTagsSpec(r: Read)
    ensures var t := XSTags(r);
            r.tags <= t &&
            |t| == |r.tags| + (if IsUnmapped(r) then 0 else 1) &&
            (!IsUnmapped(r) ==> t[|t| - 1] == ("XS:A", StrV(if IsReverse(r) then "-" else "+")))
  {
  }

  /** One link of the chain. */
  datatype Stage = SuffixStage(suffix: string) | XSStage | TagStage(spec: TagSpec)

  /** One link's `filter` on one read. */
  function Apply(stage: Stage, r: Read): Read {
    match stage
    case SuffixStage(suffix) => WithSuffix(r, suffix)
    case XSStage => r.(tags := XSTags(r))
    case TagStage(spec) => WithTag(r, spec)
  }

  /** A read through the chain: the first stage sits next to the reader. */
  function ApplyChain(stages: seq<Stage>, r: Read): Read {
    if stages == [] then r
    else Apply(stages[|stages| - 1], ApplyChain(stages[..|stages| - 1], r))
  }

  /** Python truth of an optional string argument: given and not empty. */
  predicate Given(arg: Option<string>) {
    arg.Some? && arg.value != []
  }

  /** The links bam_tag puts on the reader, in its fixed order: suffix, then
      xs, then tag. */
  function Chain(suffix: Option<string>, xs: bool, spec: Option<TagSpec>): seq<Stage> {
    (if Given(suffix) then [SuffixStage(suffix.value)] else []) +
    (if xs then [XSStage] else []) +
    (if spec.Some? then [TagStage(spec.value)] else [])
  }

  /** The chain assembly of bam_tag: the `-tag` argument is parsed when the
      Tag link is built; with no link at all it is a usage error. */
  function BuildChain(suffix: Option<string>, xs: bool, tag: Option<string>): Result<seq<Stage>, PyError> {
    if Given(tag) then
      match ParseTagArg(tag.value)
      case Err(e) => Err(e)
      case Ok(spec) => Ok(Chain(suffix, xs, Some(spec)))
    else if !Given(suffix) && !xs then Err(UsageError)
    else Ok(Chain(suffix, xs, None))
  }

  /** bam_tag refuses to run exactly when no transformer is configured, and
      otherwise fails only on a `-tag` argument it cannot parse. */
  lemma UsageErrorIffNothingToDo(suffix: Option<string>, xs: bool, tag: Option<string>)
    ensures BuildChain(suffix, xs, tag) == Err(UsageError) <==> !Given(suffix) && !xs && !Given(tag)
    ensures BuildChain(suffix, xs, tag).Err? && Given(tag) ==> ParseTagArg(tag.value).Err?
  {
  }

  /** A chain with one more link at the writer's end. */
  lemma ApplyChainSnoc(stages: seq<Stage>, stage: Stage, r: Read)
    ensures ApplyChain(stages + [stage], r) == Apply(stage, ApplyChain(stages, r))
  {
    assert (stages + [stage])[..|stages|] == stages;
  }

  /** What the chain does to one read: the suffix is appended to the name,
      then the strand tag and then the `-tag` tag are appended to the tags,
      and nothing else changes. */
  lemma ChainEffect(suffix: Option<string>, xs: bool, spec: Option<TagSpec>, r: Read)
    ensures ApplyChain(Chain(suffix, xs, spec), r) ==
            r.(qname := r.qname + (if Given(suffix) then suffix.value else ""),
               tags := (if xs then XSTags(r) else r.tags) +
                       (if spec.Some? then [(spec.value.key, spec.value.value)] else []))
  {
    var s0: seq<Stage> := if Given(suffix) then [SuffixStage(suffix.value)] else [];
    var s1 := s0 + (if xs then [XSStage] else []);
    var r0 := ApplyChain(s0, r);
    assert r0 == r.(qname := r.qname + (if Given(suffix) then suffix.value else "")) by {
      if Given(suffix) { ApplyChainSnoc([], SuffixStage(suffix.value), r); }
    }
    var r1 := ApplyChain(s1, r);
    assert r1 == r0.(tags := if xs then XSTags(r) else r.tags) by {
      if xs { ApplyChainSnoc(s0, XSStage, r); } else { assert s1 == s0; }
    }
    if spec.Some? {
      ApplyChainSnoc(s1, TagStage(spec.value), r);
    } else {
      assert Chain(suffix, xs, spec) == s1;
    }
  }

  // ---------------------------------------------------------------------
  // bam_tag

  /** One link's `filter` on one read, as the imperative code does it. */
  method RunStage(stage: Stage, r: Read) returns (r': Read)
    ensures r' == Apply(stage, r)
  {
    match stage {
      case SuffixStage(suffix) =>
        r' := r.(qname := r.qname + suffix);
      case XSStage =>
        var newtags := CufflinksXS(r);
        r' := r.(tags := newtags);
      case TagStage(spec) =>
        r' := r.(tags := r.tags + [(spec.key, spec.value)]);
    }
  }

  /** bam_tag without the files: assemble the chain, then pull every read of
      the input through it and write it out. Every read comes out exactly
      once, in input order, transformed by the whole chain. */
  method BamTag(suffix: Option<string>, xs: bool, tag: Option<string>, input: seq<Read>)
    returns (res: Result<seq<Read>, PyError>)
    ensures BuildChain(suffix, xs, tag).Err? ==> res == Err(BuildChain(suffix, xs, tag).error)
    ensures BuildChain(suffix, xs, tag).Ok? ==>
              res.Ok? && |res.value| == |input| &&
              forall i :: 0 <= i < |input| ==> res.value[i] == ApplyChain(BuildChain(suffix, xs, tag).value, input[i])
  {
    var chain := BuildChain(suffix, xs, tag);
    if chain.Err? {
      return Err(chain.error);
    }
    var out := TagReads(chain.value, input);
    return Ok(out);
  }

  /** The `for read in chain.filter(): outbam.write(read)` loop. */
  method TagReads(stages: seq<Stage>, input: seq<Read>) returns (out: seq<Read>)
    ensures |out| == |input|
    ensures forall i :: 0 <= i < |input| ==> out[i] == ApplyChain(stages, input[i])
  {
    out := [];
    var i := 0;
    while i < |input|
      invariant 0 <= i <= |input|
      invariant |out| == i
      invariant forall k :: 0 <= k < i ==> out[k] == ApplyChain(stages, input[k])
    {
      var read := RunChain(stages, input[i]);
      out := out + [read];
      i := i + 1;
    }
  }

  /** One read pulled through every link of the chain, innermost first. */
  method RunChain(stages: seq<Stage>, r: Read) returns (r': Read)
    ensures r' == ApplyChain(stages, r)
  {
    r' := r;
    var j := 0;
    while j < |stages|
      invariant 0 <= j <= |stages|
      invariant r' == ApplyChain(stages[..j], r)
    {
      assert stages[..j + 1][..j] == stages[..j];
      r' := RunStage(stages[j], r');
      j := j + 1;
    }
    assert stages[..j] == stages;
  }
}
