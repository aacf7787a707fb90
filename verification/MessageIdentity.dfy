/** The key of a message (routing_table/routing_utils.h): its order and its text. */
module MessageIdentities {
  import opened Decimals

  type Uint32 = n: int | 0 <= n < 0x1_0000_0000

  datatype MessageIdentity = MessageIdentity(messageId: Uint32, nodeId: string)

  /** std::string's order: the first difference decides, a prefix comes first. */
  predicate StringLess(a: string, b: string) {
    if b == "" then false
    else if a == "" then true
    else a[0] < b[0] || (a[0] == b[0] && StringLess(a[1..], b[1..]))
  }

  /** operator<. */
  predicate Less(a: MessageIdentity, b: MessageIdentity) {
    if a.messageId < b.messageId then true
    else a.messageId == b.messageId && StringLess(a.nodeId, b.nodeId)
  }

  /** "%d" reads the unsigned id as a signed 32-bit number. */
  function AsSigned(id: Uint32): int {
    if id < 0x8000_0000 then id else id - 0x1_0000_0000
  }

  function ToString(a: MessageIdentity): string {
    Signed(AsSigned(a.messageId)) + "_" + a.nodeId
  }

  lemma {:induction false} StringLessTotal(a: string, b: string)
    ensures !(StringLess(a, b) && StringLess(b, a))
    ensures !StringLess(a, b) && !StringLess(b, a) <==> a == b
  {
    if a != "" && b != "" {
      StringLessTotal(a[1..], b[1..]);
      assert a == [a[0]] + a[1..] && b == [b[0]] + b[1..];
    }
  }

  /** A proper prefix is less; otherwise the first different character decides. */
  lemma {:induction false} StringLessIsLexicographic(a: string, b: string)
    ensures StringLess(a, b) <==>
              || (|a| < |b| && a == b[..|a|])
              || exists i :: 0 <= i < |a| && i < |b| && a[..i] == b[..i] && a[i] < b[i]
  {
    if a == "" || b == "" {
    } else {
      var s, t := a[1..], b[1..];
      StringLessIsLexicographic(s, t);
      if StringLess(a, b) {
        if a[0] < b[0] {
          assert a[..0] == b[..0];
        } else if i :| 0 <= i < |s| && i < |t| && s[..i] == t[..i] && s[i] < t[i] {
          assert a[..i + 1] == [a[0]] + s[..i] && b[..i + 1] == [b[0]] + t[..i] && a[i + 1] < b[i + 1];
        } else {
          assert a == [a[0]] + s && b[..|a|] == [b[0]] + t[..|s|];
        }
      }
      if i :| 0 <= i < |a| && i < |b| && a[..i] == b[..i] && a[i] < b[i] {
        if i > 0 {
          assert a[..i][0] == b[..i][0];
          assert s[..i - 1] == a[..i][1..] && t[..i - 1] == b[..i][1..];
          assert s[i - 1] < t[i - 1];
        }
      }
      if |a| < |b| && a == b[..|a|] {
        assert s == b[..|a|][1..] == t[..|s|];
      }
    }
  }

  /** The message id decides first, the smaller one being less, then the text of
      the node id. */
  lemma LessIsLexicographic(a: MessageIdentity, b: MessageIdentity)
    ensures Less(a, b) <==>
              || a.messageId < b.messageId
              || (a.messageId == b.messageId
                  && ((|a.nodeId| < |b.nodeId| && a.nodeId == b.nodeId[..|a.nodeId|])
                      || exists i :: 0 <= i < |a.nodeId| && i < |b.nodeId|
                                     && a.nodeId[..i] == b.nodeId[..i] && a.nodeId[i] < b.nodeId[i]))
  {
    StringLessIsLexicographic(a.nodeId, b.nodeId);
  }

  /** The text: the id read as a signed 32-bit number, an underscore, the node id. */
  lemma TextReads(a: MessageIdentity)
    ensures var n := if a.messageId < 0x8000_0000 then a.messageId else a.messageId - 0x1_0000_0000;
            && ToString(a) == Signed(n) + "_" + a.nodeId
            && (n >= 0 ==> IsDigits(Signed(n)) && Spelled(Signed(n)) == n)
            && (n < 0 ==> Signed(n)[0] == '-' && Spelled(Signed(n)[1..]) == -n)
  {
    SignedSpells(AsSigned(a.messageId));
  }

  lemma {:induction false} StringLessTransitive(a: string, b: string, c: string)
    requires StringLess(a, b) && StringLess(b, c)
    ensures StringLess(a, c)
  {
    if a != "" && a[0] == b[0] == c[0] {
      StringLessTransitive(a[1..], b[1..], c[1..]);
    }
  }

  /** operator< is a strict total order: exactly one of less, greater and equal. */
  lemma LessIsStrictTotal(a: MessageIdentity, b: MessageIdentity, c: MessageIdentity)
    ensures !(Less(a, b) && Less(b, a))
    ensures !Less(a, b) && !Less(b, a) <==> a == b
    ensures Less(a, b) && Less(b, c) ==> Less(a, c)
  {
    StringLessTotal(a.nodeId, b.nodeId);
    if StringLess(a.nodeId, b.nodeId) && StringLess(b.nodeId, c.nodeId) {
      StringLessTransitive(a.nodeId, b.nodeId, c.nodeId);
    }
  }

  /** Two identities print alike exactly when neither is less than the other,
      whatever '_' and digits the node id holds. */
  lemma TextTellsIdentity(a: MessageIdentity, b: MessageIdentity)
    ensures ToString(a) == ToString(b) <==> !Less(a, b) && !Less(b, a)
  {
    LessIsStrictTotal(a, b, b);
    if ToString(a) == ToString(b) {
      SplitAfterSigned(AsSigned(a.messageId), AsSigned(b.messageId), '_', a.nodeId, b.nodeId);
    }
  }
}
