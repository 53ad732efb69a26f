/** The strings `aiotMqttSign` builds, as functions of the device's names. */
module SignSpec {
  import opened Words
  import opened CStrings

  const PRODUCTKEY_MAXLEN := 20
  const DEVICENAME_MAXLEN := 32
  const DEVICESECRET_MAXLEN := 64
  const SIGN_SOURCE_MAXLEN := 200
  const CLIENTID_MAXLEN := 150
  const USERNAME_MAXLEN := 64
  const PASSWORD_MAXLEN := 65

  /** The bytes of an ASCII literal. */
  function Ascii(s: string): (b: seq<byte>)
    ensures |b| == |s|
  {
    seq(|s|, i requires 0 <= i < |s| => (s[i] as int % 0x80) as byte)
  }

  function Timestamp(): (t: seq<byte>)
    ensures |t| == 13 && IsText(t)
  {
    Ascii("2524608000000")
  }

  /** MQTT_CLINETID_KV */
  function KvTail(): (t: seq<byte>)
    ensures |t| == 82 && IsText(t)
  {
    (Ascii("|timestamp=") + Timestamp()) + (KvVersion() + KvMethod())
  }

  function KvVersion(): (t: seq<byte>)
    ensures |t| == 29 && IsText(t)
  {
    Ascii(",_v=paho-c-1.0.0") + Ascii(",securemode=3")
  }

  function KvMethod(): (t: seq<byte>)
    ensures |t| == 29 && IsText(t)
  {
    Ascii(",signmethod=") + Ascii("hmacsha256,lan=C|")
  }

  function DeviceId(deviceName: seq<byte>, productKey: seq<byte>): (t: seq<byte>)
    ensures |t| == |deviceName| + 1 + |productKey|
    ensures IsText(deviceName) && IsText(productKey) ==> IsText(t)
  {
    deviceName + Ascii("&") + productKey
  }

  function ClientId(deviceName: seq<byte>, productKey: seq<byte>): (t: seq<byte>)
    ensures |t| == |deviceName| + |productKey| + 83
    ensures IsText(deviceName) && IsText(productKey) ==> IsText(t)
  {
    DeviceId(deviceName, productKey) + KvTail()
  }

  function NamedPair(deviceName: seq<byte>, productKey: seq<byte>): (t: seq<byte>)
    ensures |t| == |deviceName| + |productKey| + 10
    ensures IsText(deviceName) && IsText(productKey) ==> IsText(t)
  {
    deviceName + Ascii("productKey") + productKey
  }

  function SignTail(): (t: seq<byte>)
    ensures |t| == 22 && IsText(t)
  {
    Ascii("timestamp") + Timestamp()
  }

  /** The string that is signed. */
  function MacSrc(deviceName: seq<byte>, productKey: seq<byte>): (t: seq<byte>)
    ensures |t| == 2 * |deviceName| + 2 * |productKey| + 51
    ensures IsText(deviceName) && IsText(productKey) ==> IsText(t)
  {
    (Ascii("clientId") + DeviceId(deviceName, productKey) + Ascii("deviceName"))
    + (NamedPair(deviceName, productKey) + SignTail())
  }

  /** The string to sign determines the two names, whatever characters they hold. */
  lemma MacSrcInjective(dn1: seq<byte>, pk1: seq<byte>, dn2: seq<byte>, pk2: seq<byte>)
    requires MacSrc(dn1, pk1) == MacSrc(dn2, pk2)
    ensures dn1 == dn2 && pk1 == pk2
  {
    var n := |dn1| + |pk1|;
    assert n == |dn2| + |pk2|;
    MacSrcParts(dn1, pk1);
    MacSrcParts(dn2, pk2);
    if |dn1| < |dn2| {
      SeparatorsClash(dn1, pk1, dn2, pk2);
      assert false;
    } else if |dn2| < |dn1| {
      SeparatorsClash(dn2, pk2, dn1, pk1);
      assert false;
    } else {
      var t := DeviceId(dn1, pk1);
      assert t[..|dn1|] == dn1 && t[|dn1| + 1..] == pk1;
      assert t[..|dn1|] == dn2 && t[|dn1| + 1..] == pk2;
    }
  }

  /** Where the two spellings of the pair lie in the string to sign. */
  lemma MacSrcParts(dn: seq<byte>, pk: seq<byte>)
    ensures var n, s := |dn| + |pk|, MacSrc(dn, pk);
            s[8..n + 9] == DeviceId(dn, pk) && s[n + 19..2 * n + 29] == NamedPair(dn, pk)
  {
    var n := |dn| + |pk|;
    var a, d, b, e, z := Ascii("clientId"), DeviceId(dn, pk), Ascii("deviceName"), NamedPair(dn, pk), SignTail();
    assert |a| == 8 && |d| == n + 1 && |b| == 10 && |e| == n + 10;
    var s := (a + d + b) + (e + z);
    assert s[8..n + 9] == d;
    assert s[n + 19..2 * n + 29] == e;
  }

  /** At the first length difference one spelling has '&' and the other 'p' for the same character. */
  lemma SeparatorsClash(dn1: seq<byte>, pk1: seq<byte>, dn2: seq<byte>, pk2: seq<byte>)
    requires |dn1| < |dn2|
    ensures DeviceId(dn1, pk1) != DeviceId(dn2, pk2) || NamedPair(dn1, pk1) != NamedPair(dn2, pk2)
  {
    var k := |dn1|;
    assert DeviceId(dn1, pk1)[k] == 38;
    assert DeviceId(dn2, pk2)[k] == dn2[k] == NamedPair(dn2, pk2)[k];
    assert NamedPair(dn1, pk1)[k] == Ascii("productKey")[0] == 112;
  }

  // ----- what the user name and the client id tell -----

  const AMP: byte := 38

  /** An earlier separator splits the text of a pair into another pair. */
  lemma SplitEarlier(dn: seq<byte>, pk: seq<byte>, j: nat)
    requires j < |dn| && dn[j] == AMP
    ensures DeviceId(dn[..j], dn[j + 1..] + Ascii("&") + pk) == DeviceId(dn, pk)
  {
    assert dn == dn[..j] + Ascii("&") + dn[j + 1..];
  }

  lemma SplitLater(dn: seq<byte>, pk: seq<byte>, j: nat)
    requires j < |pk| && pk[j] == AMP
    ensures DeviceId(dn + Ascii("&") + pk[..j], pk[j + 1..]) == DeviceId(dn, pk)
  {
    assert pk == pk[..j] + Ascii("&") + pk[j + 1..];
  }

  /** Another pair with the same text splits it at an '&' of the device name or of the product key. */
  lemma OtherSplit(dn: seq<byte>, pk: seq<byte>, dn2: seq<byte>, pk2: seq<byte>)
    requires DeviceId(dn, pk) == DeviceId(dn2, pk2)
    ensures |dn2| < |dn| ==> dn[|dn2|] == AMP
    ensures |dn2| > |dn| ==> |dn2| - |dn| - 1 < |pk| && pk[|dn2| - |dn| - 1] == AMP
    ensures |dn2| == |dn| ==> dn2 == dn && pk2 == pk
  {
    var t := DeviceId(dn, pk);
    assert t[|dn2|] == DeviceId(dn2, pk2)[|dn2|] == AMP;
    if |dn2| == |dn| {
      assert t[..|dn|] == dn && t[|dn| + 1..] == pk;
      assert t[..|dn|] == dn2 && t[|dn| + 1..] == pk2;
    }
  }

  /** The user name determines the device if and only if neither of its names holds an '&'. */
  lemma UsernameDetermines(dn: seq<byte>, pk: seq<byte>)
    ensures (forall dn2, pk2 :: DeviceId(dn2, pk2) == DeviceId(dn, pk) ==> dn2 == dn && pk2 == pk)
            <==> AMP !in dn && AMP !in pk
  {
    if j :| 0 <= j < |dn| && dn[j] == AMP {
      SplitEarlier(dn, pk, j);
    }
    if j :| 0 <= j < |pk| && pk[j] == AMP {
      SplitLater(dn, pk, j);
    }
    if AMP !in dn && AMP !in pk {
      forall dn2, pk2 | DeviceId(dn2, pk2) == DeviceId(dn, pk)
        ensures dn2 == dn && pk2 == pk
      {
        OtherSplit(dn, pk, dn2, pk2);
      }
    }
  }

  /** Names that `aiotMqttSign` accepts. */
  predicate IsDevice(deviceName: seq<byte>, productKey: seq<byte>) {
    && IsText(deviceName) && IsText(productKey)
    && |deviceName| <= DEVICENAME_MAXLEN && |productKey| <= PRODUCTKEY_MAXLEN
  }

  /** No '&' of the pair leaves a product key of at most 20 bytes behind it and a device name of at most 32 before it. */
  predicate NoOtherSplit(dn: seq<byte>, pk: seq<byte>) {
    && (forall j :: 0 <= j < |dn| && dn[j] == AMP ==> |dn| - j + |pk| > PRODUCTKEY_MAXLEN)
    && (forall j :: 0 <= j < |pk| && pk[j] == AMP ==> |dn| + 1 + j > DEVICENAME_MAXLEN)
  }

  /** Among the devices whose names are accepted, the user name determines the device if and only if no '&' of its names
      splits the text into names that are accepted too. */
  lemma UsernameDeterminesDevice(dn: seq<byte>, pk: seq<byte>)
    requires IsDevice(dn, pk)
    ensures (forall dn2, pk2 :: IsDevice(dn2, pk2) && DeviceId(dn2, pk2) == DeviceId(dn, pk) ==> dn2 == dn && pk2 == pk)
            <==> NoOtherSplit(dn, pk)
  {
    if j :| 0 <= j < |dn| && dn[j] == AMP && |dn| - j + |pk| <= PRODUCTKEY_MAXLEN {
      SplitEarlier(dn, pk, j);
      assert IsDevice(dn[..j], dn[j + 1..] + Ascii("&") + pk);
    }
    if j :| 0 <= j < |pk| && pk[j] == AMP && |dn| + 1 + j <= DEVICENAME_MAXLEN {
      SplitLater(dn, pk, j);
      assert IsDevice(dn + Ascii("&") + pk[..j], pk[j + 1..]);
    }
    if NoOtherSplit(dn, pk) {
      forall dn2, pk2 | IsDevice(dn2, pk2) && DeviceId(dn2, pk2) == DeviceId(dn, pk)
        ensures dn2 == dn && pk2 == pk
      {
        OtherSplit(dn, pk, dn2, pk2);
      }
    }
  }

  /** The client id tells as much as the user name: its tail is the same for all devices. */
  lemma ClientIdTellsTheSame(dn: seq<byte>, pk: seq<byte>, dn2: seq<byte>, pk2: seq<byte>)
    ensures ClientId(dn, pk) == ClientId(dn2, pk2) <==> DeviceId(dn, pk) == DeviceId(dn2, pk2)
  {
    var a, b := DeviceId(dn, pk), DeviceId(dn2, pk2);
    if ClientId(dn, pk) == ClientId(dn2, pk2) {
      assert a == ClientId(dn, pk)[..|a|] == b;
    }
  }

  /** Two accepted devices whose names hold an '&' and that share user name and client id. */
  lemma UsernameNotInjective()
    ensures var a, b := Ascii("a"), Ascii("a&a");
            && IsDevice(a, b) && IsDevice(b, a) && a != b
            && DeviceId(a, b) == DeviceId(b, a) && ClientId(a, b) == ClientId(b, a)
  {
    var a, b := Ascii("a"), Ascii("a&a");
    assert DeviceId(a, b) == [97, 38, 97, 38, 97] == DeviceId(b, a);
    assert |a| != |b|;
  }

  // ----- the strings in full -----

  /** Letters, digits and signs are their codes. */
  lemma AsciiAt(s: string, i: nat)
    requires i < |s| && s[i] < 128 as char
    ensures Ascii(s)[i] as char == s[i]
  {
  }

  lemma AsciiConcat(s: string, t: string)
    ensures Ascii(s + t) == Ascii(s) + Ascii(t)
  {
  }

  /** Client id, user name and string to sign, written out. */
  lemma StringsInFull(dn: seq<byte>, pk: seq<byte>)
    ensures DeviceId(dn, pk) == dn + Ascii("&") + pk
    ensures ClientId(dn, pk) == dn + Ascii("&") + pk
              + (Ascii("|timestamp=2524608000000") + Ascii(",_v=paho-c-1.0.0,securemode=3,signmethod=hmacsha256,lan=C|"))
    ensures MacSrc(dn, pk) == Ascii("clientId") + dn + Ascii("&") + pk + Ascii("deviceName") + dn
              + Ascii("productKey") + pk + Ascii("timestamp2524608000000")
  {
    TailInFull();
    assert MacSrc(dn, pk) == Ascii("clientId") + dn + Ascii("&") + pk + Ascii("deviceName") + dn
      + Ascii("productKey") + pk + SignTail();
  }

  lemma TailInFull()
    ensures KvTail()
         == Ascii("|timestamp=2524608000000") + Ascii(",_v=paho-c-1.0.0,securemode=3,signmethod=hmacsha256,lan=C|")
    ensures SignTail() == Ascii("timestamp2524608000000")
  {
    TimestampInFull();
    VersionInFull();
    MethodInFull();
    AsciiConcat(",_v=paho-c-1.0.0,securemode=3", ",signmethod=hmacsha256,lan=C|");
    assert ",_v=paho-c-1.0.0,securemode=3" + ",signmethod=hmacsha256,lan=C|"
        == ",_v=paho-c-1.0.0,securemode=3,signmethod=hmacsha256,lan=C|";
  }

  lemma TimestampInFull()
    ensures Ascii("|timestamp=") + Timestamp() == Ascii("|timestamp=2524608000000")
    ensures SignTail() == Ascii("timestamp2524608000000")
  {
    AsciiConcat("|timestamp=", "2524608000000");
    AsciiConcat("timestamp", "2524608000000");
    assert "|timestamp=" + "2524608000000" == "|timestamp=2524608000000";
    assert "timestamp" + "2524608000000" == "timestamp2524608000000";
  }

  lemma VersionInFull()
    ensures KvVersion() == Ascii(",_v=paho-c-1.0.0,securemode=3")
  {
    AsciiConcat(",_v=paho-c-1.0.0", ",securemode=3");
    assert ",_v=paho-c-1.0.0" + ",securemode=3" == ",_v=paho-c-1.0.0,securemode=3";
  }

  lemma MethodInFull()
    ensures KvMethod() == Ascii(",signmethod=hmacsha256,lan=C|")
  {
    AsciiConcat(",signmethod=", "hmacsha256,lan=C|");
    assert ",signmethod=" + "hmacsha256,lan=C|" == ",signmethod=hmacsha256,lan=C|";
  }
}
