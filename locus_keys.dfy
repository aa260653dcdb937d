/**
 * Locus-key extraction from a record identifier (seqcap_align_2.py, lines 177-181).
 * The standard scheme takes the second '|'-field; the faircloth scheme joins
 * the first '|'-field with the second one's prefix before its first '_'.
 */
module LocusKeys {
  import opened Wrappers
  import opened Text

  /**
   * The locus key of `identifier`, or None where Python raises IndexError
   * because `identifier.split('|')` has a single field.
   */
  function LocusKey(identifier: string, faircloth: bool): (key: Option<string>)
    ensures key.Some? <==> '|' in identifier
  {
    SplitFieldCount(identifier, '|');
    var fields := Split(identifier, '|');
    if |fields| < 2 then None
    else if !faircloth then Some(fields[1])
    else Some(Join([fields[0], Split(fields[1], '_')[0]], '_'))
  }

  /** The first two '|'-fields of `sample|locus` followed by nothing or by further fields. */
  lemma {:induction false} LeadingFields(sample: string, locus: string, rest: string)
    requires '|' !in sample && '|' !in locus
    requires rest == [] || rest[0] == '|'
    ensures var fields := Split(sample + "|" + locus + rest, '|');
      |fields| >= 2 && fields[0] == sample && fields[1] == locus
  {
    if rest == [] {
      SplitNoSeparator(locus, '|');
      SplitAtSeparator(sample, locus, '|');
      assert sample + "|" + locus + rest == sample + ['|'] + locus;
    } else {
      var tail := locus + rest;
      assert tail == locus + ['|'] + rest[1..];
      SplitAtSeparator(locus, rest[1..], '|');
      SplitAtSeparator(sample, tail, '|');
      assert sample + "|" + locus + rest == sample + ['|'] + tail;
    }
  }

  /** Standard scheme: the key is exactly the text between the first and second '|'. */
  lemma {:induction false} StandardKey(sample: string, locus: string, rest: string)
    requires '|' !in sample && '|' !in locus
    requires rest == [] || rest[0] == '|'
    ensures LocusKey(sample + "|" + locus + rest, false) == Some(locus)
  {
    LeadingFields(sample, locus, rest);
  }

  /**
   * Faircloth scheme: for `sample|prefix<suffix>...` where `suffix` is empty or
   * starts with '_', the key is `sample_prefix`.
   */
  lemma {:induction false} FairclothKey(sample: string, prefix: string, suffix: string, rest: string)
    requires '|' !in sample && '|' !in prefix && '|' !in suffix
    requires '_' !in prefix
    requires suffix == [] || suffix[0] == '_'
    requires rest == [] || rest[0] == '|'
    ensures LocusKey(sample + "|" + prefix + suffix + rest, true) == Some(sample + "_" + prefix)
  {
    var field := prefix + suffix;
    assert sample + "|" + prefix + suffix + rest == sample + "|" + field + rest;
    LeadingFields(sample, field, rest);
    if suffix == [] {
      assert field == prefix;
      SplitNoSeparator(prefix, '_');
    } else {
      assert field == prefix + ['_'] + suffix[1..];
      SplitAtSeparator(prefix, suffix[1..], '_');
    }
    assert Split(field, '_')[0] == prefix;
    assert [sample, prefix][1..] == [prefix];
    assert Join([sample, prefix], '_') == sample + "_" + prefix;
  }
}
