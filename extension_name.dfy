/** The canonical name of a PHP extension (`Php\Pie\ExtensionName`).

    A value can only be built through the validating factories, and it
    carries its name in a field whose type admits nothing but valid names,
    so every `ExtensionName` satisfies the package-name pattern for as long
    as it exists. Values are immutable: no operation changes the name. */
module ExtensionNames {

  import opened Wrappers
  import opened PhpStrings
  import opened NamePattern

  /** The optional prefix an extension name may be written with. */
  const EXT_PREFIX: string := "ext-"

  /** The php-ext metadata key that declares an extension name explicitly. */
  const EXTENSION_NAME_KEY: string := "extension-name"

  /** A valid name: the only thing an `ExtensionName` can hold. */
  type ValidName = s: string | IsValidName(s) witness "ab"

  /** A value of the loosely typed php-ext metadata: a string or anything else. */
  datatype MetaValue =
    | MetaString(text: string)
    | MetaInt(number: int)
    | MetaBool(flag: bool)
    | MetaNull
    | MetaList(items: seq<MetaValue>)

  /** What the factory reads of a Composer package: its pretty name
      (`vendor/package`) and its php-ext metadata, which may be absent. */
  datatype Package = Package(prettyName: string, phpExt: Option<map<string, MetaValue>>)

  /** Why no extension name could be built: the candidate that failed the
      pattern, or a pretty name that is not of the form `vendor/package`. */
  datatype Error =
    | InvalidExtensionName(candidate: string)
    | NotVendorPackage(prettyName: string)

  datatype ExtensionName = ExtensionName(normalised: ValidName) {

    /** The bare name, without prefix. */
    function Name(): (r: string)
      ensures r != [] && IsValidName(r)
    {
      normalised
    }

    /** The name as Composer writes extension packages: `ext-` and the bare name. */
    function NameWithExtPrefix(): (r: string)
      ensures StartsWith(r, EXT_PREFIX) && r[|EXT_PREFIX|..] == Name()
      ensures |r| >= 6
    {
      EXT_PREFIX + normalised
    }
  }

  /** The private constructor: admits the candidate only when it matches the
      package-name pattern, and then holds it unchanged. */
  function Construct(candidate: string): (r: Result<ExtensionName, Error>)
    ensures r.Success? <==> IsValidName(candidate)
    ensures r.Success? ==> r.value.Name() == candidate
    ensures r.Failure? ==> r.error == InvalidExtensionName(candidate)
  {
    PatternMatchesIff(candidate);
    if MatchesPattern(candidate) then Success(ExtensionName(candidate))
    else Failure(InvalidExtensionName(candidate))
  }

  /** `normaliseFromString`: drops one leading `ext-`, if there is one, and
      validates what remains. */
  function NormaliseFromString(s: string): (r: Result<ExtensionName, Error>)
    ensures StartsWith(s, EXT_PREFIX) ==>
      && (r.Success? <==> IsValidName(s[|EXT_PREFIX|..]))
      && (r.Success? ==> r.value.Name() == s[|EXT_PREFIX|..])
      && (r.Failure? ==> r.error == InvalidExtensionName(s[|EXT_PREFIX|..]))
    ensures !StartsWith(s, EXT_PREFIX) ==>
      && (r.Success? <==> IsValidName(s))
      && (r.Success? ==> r.value.Name() == s)
      && (r.Failure? ==> r.error == InvalidExtensionName(s))
  {
    if StartsWith(s, EXT_PREFIX) then Construct(s[|EXT_PREFIX|..]) else Construct(s)
  }

  /** True when the php-ext metadata exists and holds a non-empty string
      under `extension-name`. */
  predicate DeclaresExtensionName(p: Package) {
    && p.phpExt.Some?
    && EXTENSION_NAME_KEY in p.phpExt.value
    && p.phpExt.value[EXTENSION_NAME_KEY].MetaString?
    && p.phpExt.value[EXTENSION_NAME_KEY].text != ""
  }

  /** `determineFromComposerPackage`: the declared `extension-name` when
      there is a usable one, otherwise the part after the `/` of the pretty
      name; either candidate is then normalised. */
  function DetermineFromComposerPackage(p: Package): (r: Result<ExtensionName, Error>)
    ensures r.Failure? && r.error.NotVendorPackage? ==>
      !DeclaresExtensionName(p) && Occurrences('/', p.prettyName) != 1 && r.error.prettyName == p.prettyName
    ensures r.Success? && !DeclaresExtensionName(p) ==> Occurrences('/', p.prettyName) == 1
  {
    if DeclaresExtensionName(p) then
      NormaliseFromString(p.phpExt.value[EXTENSION_NAME_KEY].text)
    else
      var parts := Explode('/', p.prettyName);
      if |parts| != 2 then Failure(NotVendorPackage(p.prettyName))
      else NormaliseFromString(parts[1])
  }

  /** A valid name never begins with `ext-`, so normalising it keeps it whole. */
  lemma NormaliseName(x: ExtensionName)
    ensures NormaliseFromString(x.Name()) == Success(x)
  {
    ValidNameShape(x.Name());
  }

  /** Round trip: the prefixed form normalises back to the same value. */
  lemma NormalisePrefixedName(x: ExtensionName)
    ensures NormaliseFromString(x.NameWithExtPrefix()) == Success(x)
  {
  }

  /** Normalising again from the prefixed form of a result changes nothing. */
  lemma NormaliseIdempotent(s: string)
    requires NormaliseFromString(s).Success?
    ensures NormaliseFromString(NormaliseFromString(s).value.NameWithExtPrefix()) == NormaliseFromString(s)
  {
  }

  /** Only a single prefix is stripped: `ext-ext-foo` leaves `ext-foo`,
      which the `-` disqualifies, whereas `ext-foo` gives `foo`. */
  lemma OnlyOnePrefixStripped()
    ensures NormaliseFromString("ext-ext-foo") == Failure(InvalidExtensionName("ext-foo"))
    ensures NormaliseFromString("ext-foo").Success?
    ensures NormaliseFromString("ext-foo").value.Name() == "foo"
  {
    assert StartsWith("ext-ext-foo", EXT_PREFIX) && "ext-ext-foo"[4..] == "ext-foo";
    assert !IsNameChar("ext-foo"[3]);
    assert StartsWith("ext-foo", EXT_PREFIX) && "ext-foo"[4..] == "foo";
  }

  /** Inputs that fail the pattern: empty, a single letter, a leading digit,
      a `-`, and a bare prefix (which normalises to the empty string). */
  lemma RejectedInputs()
    ensures NormaliseFromString("") == Failure(InvalidExtensionName(""))
    ensures NormaliseFromString("a") == Failure(InvalidExtensionName("a"))
    ensures NormaliseFromString("1ab") == Failure(InvalidExtensionName("1ab"))
    ensures NormaliseFromString("a-b") == Failure(InvalidExtensionName("a-b"))
    ensures NormaliseFromString("ext-") == Failure(InvalidExtensionName(""))
  {
  }

  /** An `ExtensionName` is nothing but its name: equal names, equal values. */
  lemma NameDeterminesValue(x: ExtensionName, y: ExtensionName)
    requires x.Name() == y.Name()
    ensures x == y
  {
  }

  /** The explicit metadata wins: a non-empty string under `extension-name`
      is the candidate, whatever the pretty name is. */
  lemma DeclaredNameWins(p: Package, declared: string)
    requires p.phpExt.Some? && EXTENSION_NAME_KEY in p.phpExt.value
    requires p.phpExt.value[EXTENSION_NAME_KEY] == MetaString(declared) && declared != ""
    ensures DetermineFromComposerPackage(p) == NormaliseFromString(declared)
  {
  }

  /** The declared name is chosen even when the pretty name would give a
      valid name of its own. */
  lemma DeclaredNameBeatsPrettyName()
    ensures DetermineFromComposerPackage(
      Package("vendor/other", Some(map[EXTENSION_NAME_KEY := MetaString("foo_ext")])))
      == Success(ExtensionName("foo_ext"))
  {
    DeclaredNameWins(Package("vendor/other", Some(map[EXTENSION_NAME_KEY := MetaString("foo_ext")])), "foo_ext");
    assert !StartsWith("foo_ext", EXT_PREFIX) by { assert "foo_ext"[..4][0] == 'f'; }
  }

  /** Without a usable declared name (no metadata, no key, a value that is
      not a string, or an empty string), `vendor/package` yields the
      normalised `package` part. The vendor part may be empty. */
  lemma FallbackToPackagePart(p: Package, vendor: string, package: string)
    requires
      || p.phpExt.None?
      || EXTENSION_NAME_KEY !in p.phpExt.value
      || !p.phpExt.value[EXTENSION_NAME_KEY].MetaString?
      || p.phpExt.value[EXTENSION_NAME_KEY].text == ""
    requires p.prettyName == vendor + "/" + package
    requires '/' !in vendor && '/' !in package
    ensures DetermineFromComposerPackage(p) == NormaliseFromString(package)
  {
    ExplodeTwoPieces('/', vendor, package);
  }

  /** Without a usable declared name, a pretty name with no `/` or with
      more than one `/` is rejected. */
  lemma FallbackNeedsOneSlash(p: Package)
    requires !DeclaresExtensionName(p)
    requires Occurrences('/', p.prettyName) != 1
    ensures DetermineFromComposerPackage(p) == Failure(NotVendorPackage(p.prettyName))
  {
  }

  /** Without a usable declared name, a successful result comes from the
      part after the single `/`, normalised. */
  lemma FallbackSuccessShape(p: Package)
    requires !DeclaresExtensionName(p)
    requires DetermineFromComposerPackage(p).Success?
    ensures |Explode('/', p.prettyName)| == 2
    ensures p.prettyName == Explode('/', p.prettyName)[0] + "/" + Explode('/', p.prettyName)[1]
    ensures DetermineFromComposerPackage(p) == NormaliseFromString(Explode('/', p.prettyName)[1])
  {
    ExplodeTwoPiecesShape('/', p.prettyName);
  }

  /** `vendor/package` with a valid `package` and no declared name gives the
      bare name `package` and the prefixed name `ext-package`. */
  lemma VendorPackageName(vendor: string, package: string)
    requires '/' !in vendor && IsValidName(package)
    ensures DetermineFromComposerPackage(Package(vendor + "/" + package, None)).Success?
    ensures DetermineFromComposerPackage(Package(vendor + "/" + package, None)).value.Name() == package
    ensures DetermineFromComposerPackage(Package(vendor + "/" + package, None)).value.NameWithExtPrefix()
      == "ext-" + package
  {
    ValidNameShape(package);
    FallbackToPackagePart(Package(vendor + "/" + package, None), vendor, package);
  }

  /** An empty package part, as in `vendor/`, fails validation; an empty
      vendor part, as in `/pkg`, is accepted. */
  lemma EmptyParts(vendor: string)
    requires '/' !in vendor
    ensures DetermineFromComposerPackage(Package(vendor + "/", None)) == Failure(InvalidExtensionName(""))
    ensures DetermineFromComposerPackage(Package("/pkg", None)) == Success(ExtensionName("pkg"))
  {
    FallbackToPackagePart(Package(vendor + "/", None), vendor, "");
    FallbackToPackagePart(Package("/pkg", None), "", "pkg");
    assert !StartsWith("pkg", EXT_PREFIX);
  }
}
