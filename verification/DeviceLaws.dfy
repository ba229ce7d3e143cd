/** Which file names count as reserved device names, letter by letter. */
module DeviceLaws {
  import opened Base
  import opened Characters
  import opened Filenames
  import opened FilenameLaws

  const DEVICE_NAMES: set<string> := {
    "CON", "PRN", "AUX", "NUL", "CLOCK$", "CONIN$", "CONOUT$",
    "COM1", "COM2", "COM3", "COM4", "COM5", "COM6", "COM7", "COM8", "COM9",
    "LPT1", "LPT2", "LPT3", "LPT4", "LPT5", "LPT6", "LPT7", "LPT8", "LPT9"}

  lemma Numbered(s: string)
    requires |s| == 4
    ensures s == s[..3] + [s[3]]
  {
  }

  lemma NumberedDevice(s: string, prefix: string)
    requires |s| == 4 && s[..3] == prefix && prefix in {"COM", "LPT"} && '1' <= s[3] <= '9'
    ensures s in DEVICE_NAMES
  {
    var n := s[3];
    assert n in {'1', '2', '3', '4', '5', '6', '7', '8', '9'} by {
      assert n as int - '0' as int in {1, 2, 3, 4, 5, 6, 7, 8, 9};
    }
    Numbered(s);
    if prefix == "COM" {
      assert s == ['C', 'O', 'M', n];
    } else {
      assert s == ['L', 'P', 'T', n];
    }
  }

  lemma ListedDevice(s: string)
    requires s in DEVICE_NAMES
    ensures Device(s)
  {
    if |s| == 4 {
      assert s[..3] == "COM" || s[..3] == "LPT";
    }
  }

  lemma DevicesExactly(s: string)
    ensures Device(s) <==> s in DEVICE_NAMES
  {
    if s in DEVICE_NAMES {
      ListedDevice(s);
    } else if |s| == 4 && s[..3] in {"COM", "LPT"} && '1' <= s[3] <= '9' {
      NumberedDevice(s, s[..3]);
    }
  }

  /** Equal but for the case of ASCII letters; the second text has no small letters. */
  predicate Spells(s: string, device: string) {
    |s| == |device| && forall k :: 0 <= k < |s| ==> s[k] == device[k] || ('A' <= device[k] <= 'Z' && s[k] as int == device[k] as int + 32)
  }

  predicate NoSmallLetters(s: string) {
    forall k :: 0 <= k < |s| ==> !('a' <= s[k] <= 'z')
  }

  lemma UppercaseSpells(s: string, device: string)
    requires NoSmallLetters(device)
    ensures Spells(s, device) <==> Uppercase(s) == device
  {
    if Spells(s, device) {
      forall k | 0 <= k < |s| ensures Uppercase(s)[k] == device[k] {
        assert s[k] == device[k] || s[k] as int == device[k] as int + 32;
      }
    }
  }

  lemma DevicesAreCapital(device: string)
    requires device in DEVICE_NAMES
    ensures NoSmallLetters(device)
  {
  }

  /** The first `n` characters spell the device, only spaces stand behind them up to the first dot or the end. */
  predicate NamesDeviceAt(name: string, device: string, n: nat, m: nat) {
    && n <= m <= |name| && Spells(name[..n], device)
    && (forall k :: n <= k < m ==> name[k] == ' ')
    && (m == |name| || name[m] == '.')
  }

  ghost predicate NamesDevice(name: string) {
    exists device, n: nat, m: nat :: device in DEVICE_NAMES && NamesDeviceAt(name, device, n, m)
  }

  lemma {:induction false} ChunkSplits(name: string)
    ensures FirstChunk(name) <= name && !HasDot(FirstChunk(name))
    ensures |FirstChunk(name)| < |name| ==> name[|FirstChunk(name)|] == '.'
  {
    if name != "" && name[0] != '.' {
      ChunkSplits(name[1..]);
      var rest := FirstChunk(name[1..]);
      assert FirstChunk(name) == [name[0]] + rest;
      assert forall k :: 0 < k < |FirstChunk(name)| ==> FirstChunk(name)[k] == rest[k - 1];
    }
  }

  lemma {:induction false} ChunkIs(name: string, m: nat)
    requires m <= |name| && (m == |name| || name[m] == '.') && forall k :: 0 <= k < m ==> name[k] != '.'
    ensures FirstChunk(name) == name[..m]
  {
    if m > 0 {
      ChunkIs(name[1..], m - 1);
      assert name[..m] == [name[0]] + name[1..][..m - 1];
    }
  }

  lemma SpelledHasNoDot(s: string, device: string)
    requires device in DEVICE_NAMES && Spells(s, device)
    ensures forall k :: 0 <= k < |s| ==> s[k] != '.'
  {
    assert forall k :: 0 <= k < |device| ==> device[k] != '.';
    forall k | 0 <= k < |s| ensures s[k] != '.' {
      assert s[k] == device[k] || s[k] as int == device[k] as int + 32;
    }
  }

  lemma NamedIsReserved(name: string, device: string, n: nat, m: nat)
    requires device in DEVICE_NAMES && NamesDeviceAt(name, device, n, m)
    ensures IsReserved(name)
  {
    SpelledHasNoDot(name[..n], device);
    assert forall k :: 0 <= k < n ==> name[k] == name[..n][k];
    ChunkIs(name, m);
    var chunk := name[..m];
    assert chunk[..n] == name[..n];
    DevicesAreCapital(device);
    UppercaseSpells(name[..n], device);
    DevicesExactly(device);
    assert PaddedAt(chunk, n);
    assert !HasDot(chunk);
    DotlessReservedExactly(chunk);
    WholeChunk(chunk);
  }

  lemma SpelledDevice(s: string) returns (device: string)
    requires Device(Uppercase(s))
    ensures device in DEVICE_NAMES && Spells(s, device)
  {
    device := Uppercase(s);
    DevicesExactly(device);
    DevicesAreCapital(device);
    UppercaseSpells(s, device);
  }

  lemma ReservedIsNamed(name: string) returns (device: string, n: nat, m: nat)
    requires IsReserved(name)
    ensures device in DEVICE_NAMES && NamesDeviceAt(name, device, n, m)
  {
    var chunk := FirstChunk(name);
    ChunkSplits(name);
    WholeChunk(chunk);
    DotlessReservedExactly(chunk);
    n :| PaddedAt(chunk, n);
    m := |chunk|;
    device := SpelledDevice(chunk[..n]);
    assert name[..n] == chunk[..n];
  }

  /** A name is reserved exactly if it spells one of the listed devices, then spaces, up to its first dot or its end. */
  lemma ReservedExactly(name: string)
    ensures IsReserved(name) <==> NamesDevice(name)
  {
    if IsReserved(name) {
      var device, n, m := ReservedIsNamed(name);
    }
    if NamesDevice(name) {
      var device, n: nat, m: nat :| device in DEVICE_NAMES && NamesDeviceAt(name, device, n, m);
      NamedIsReserved(name, device, n, m);
    }
  }
}
