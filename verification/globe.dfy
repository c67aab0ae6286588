/**
 * The exchange markers of frontend/static/js/globe.js: the projection of a
 * latitude and longitude onto the globe (`latLongToVector3`), the groups of
 * exchanges registered at one location and the small circular offset that
 * keeps their markers apart (`addExchange`), and the marker records that
 * later updates overlay (`updateExchangeData`).
 *
 * Trigonometry is a parameter: `pi`, `sin` and `cos` are arbitrary, and only
 * `sin 0 = 0`, `cos 0 = 1` and a positive `pi` are assumed where a property
 * needs them.
 */
module Globe {

  /** The trigonometry the projection and the offsets use. */
  datatype Trig = Trig(pi: real, sin: real -> real, cos: real -> real)

  /** The facts about `Math.PI`, `Math.sin` and `Math.cos` the properties rely on. */
  predicate ValidTrig(t: Trig)
  {
    t.pi > 0.0 && t.sin(0.0) == 0.0 && t.cos(0.0) == 1.0
  }

  /** `sin² + cos² = 1` at every angle; needed only to place a projected point on its sphere. */
  ghost predicate Pythagorean(t: Trig)
  {
    forall a :: t.sin(a) * t.sin(a) + t.cos(a) * t.cos(a) == 1.0
  }

  /** A point of the scene. */
  datatype Vec3 = Vec3(x: real, y: real, z: real)

  /** Degrees to radians, `deg * (Math.PI / 180)`. */
  function Radians(t: Trig, deg: real): real
  {
    deg * (t.pi / 180.0)
  }

  /**
   * `latLongToVector3(lat, lon, radius)`: the polar angle is measured from
   * the north pole (`90 - lat`), the azimuth from the antimeridian
   * (`lon + 180`), and the y axis points north.
   */
  function LatLongToVector3(t: Trig, lat: real, lon: real, radius: real): (v: Vec3)
    ensures var phi := Radians(t, 90.0 - lat);
            var theta := Radians(t, lon + 180.0);
            && v.y == radius * t.cos(phi)
            && v.x * t.sin(theta) == -(v.z * t.cos(theta))
  {
    var phi := Radians(t, 90.0 - lat);
    var theta := Radians(t, lon + 180.0);
    Vec3(-radius * t.sin(phi) * t.cos(theta), radius * t.cos(phi), radius * t.sin(phi) * t.sin(theta))
  }

  /** The height of a projected point depends on the latitude and the radius only. */
  lemma HeightIgnoresLongitude(t: Trig, lat: real, lon1: real, lon2: real, radius: real)
    ensures LatLongToVector3(t, lat, lon1, radius).y == LatLongToVector3(t, lat, lon2, radius).y
  {
  }

  /** Every longitude at latitude 90 projects to the north pole `(0, radius, 0)`. */
  lemma NorthPole(t: Trig, lon: real, radius: real)
    requires ValidTrig(t)
    ensures LatLongToVector3(t, 90.0, lon, radius) == Vec3(0.0, radius, 0.0)
  {
    assert Radians(t, 90.0 - 90.0) == 0.0;
  }

  /** With `sin² + cos² = 1` the projected point lies on the sphere of the given radius. */
  lemma OnSphere(t: Trig, lat: real, lon: real, radius: real)
    requires Pythagorean(t)
    ensures var v := LatLongToVector3(t, lat, lon, radius);
            v.x * v.x + v.y * v.y + v.z * v.z == radius * radius
  {
    var phi := Radians(t, 90.0 - lat);
    var theta := Radians(t, lon + 180.0);
    var s, c := t.sin(phi), t.cos(phi);
    var st, ct := t.sin(theta), t.cos(theta);
    assert s * s + c * c == 1.0;
    assert st * st + ct * ct == 1.0;
    var v := LatLongToVector3(t, lat, lon, radius);
    var r2 := radius * radius;
    assert v.x * v.x == r2 * (s * s) * (ct * ct);
    assert v.z * v.z == r2 * (s * s) * (st * st);
    assert v.y * v.y == r2 * (c * c);
    assert v.x * v.x + v.z * v.z == r2 * (s * s) * (st * st + ct * ct);
  }

  /** A field value of a marker record: a name or location, or a price. */
  datatype Value = Text(text: string) | Number(number: real)

  /** A plain JavaScript object of fields. */
  type Record = map<string, Value>

  /** The parts of a marker mesh the model keeps: where it sits and its `userData`. */
  datatype Marker = Marker(position: Vec3, userData: Record)

  /**
   * The location key `` `${lat},${lon}` ``. Distinct numbers print
   * differently, so the key is the coordinate pair itself.
   */
  type Location = (real, real)

  /** The `locationGroups` and `markers` maps of a globe. */
  datatype Registry = Registry(groups: map<Location, seq<string>>, markers: map<string, Marker>)

  /** The empty globe the constructor sets up. */
  function EmptyRegistry(): (g: Registry)
    ensures Consistent(g)
  {
    Registry(map[], map[])
  }

  /** The names registered at a location, in registration order; none for an unknown location. */
  function Group(g: Registry, loc: Location): seq<string>
  {
    if loc in g.groups then g.groups[loc] else []
  }

  /** Every registered name has a marker. */
  ghost predicate Consistent(g: Registry)
  {
    forall loc, i :: loc in g.groups && 0 <= i < |g.groups[loc]| ==> g.groups[loc][i] in g.markers
  }

  /** Where a newly added marker went: its place in the group, its angle, and the offset position. */
  datatype Placement = Placement(index: nat, angle: real, lat: real, lon: real)

  datatype Added = Added(registry: Registry, placement: Placement)

  /** The offset distance in degrees. */
  const Distance: real := 1.5

  /** The radius markers are projected at, just above the globe's surface of radius 100. */
  const MarkerRadius: real := 102.0

  /** `Math.max(8, n)`. */
  function Spread(n: nat): (m: nat)
    ensures m >= 8 && m >= n
    ensures m == 8 || m == n
  {
    if n < 8 then 8 else n
  }

  /**
   * The offset position of member `index` of a group of `size`: the angle
   * `index * 2 * pi / max(8, size)`, and 1.5 degrees from the location in
   * that direction, cosine on the longitude and sine on the latitude.
   */
  function Offset(t: Trig, lat: real, lon: real, index: nat, size: nat): (p: Placement)
    ensures p.index == index
    ensures p.angle * Spread(size) as real == index as real * t.pi * 2.0
    ensures p.lon == lon + t.cos(p.angle) * Distance
    ensures p.lat == lat + t.sin(p.angle) * Distance
  {
    var spread := Spread(size) as real;
    var angle := (index as real * t.pi * 2.0) / spread;
    assert angle * spread == index as real * t.pi * 2.0;
    Placement(index, angle, lat + t.sin(angle) * Distance, lon + t.cos(angle) * Distance)
  }

  /** `{name: name, ...data}`: the given fields, and `name` unless they carry their own. */
  function NamedRecord(name: string, data: Record): (u: Record)
    ensures u.Keys == data.Keys + {"name"}
    ensures forall f :: f in data ==> u[f] == data[f]
    ensures "name" !in data ==> u["name"] == Text(name)
  {
    map["name" := Text(name)] + data
  }

  /**
   * `addExchange(lat, lon, name, data)`: append `name` to the group at
   * `(lat, lon)`, creating the group if needed; place the new member at its
   * offset for its index in the grown group; store a marker there whose
   * `userData` is `{name, ...data}` under `name`, replacing any marker of
   * that name. No other group and no other marker is touched, so the
   * offsets of earlier members are never recomputed.
   */
  function AddExchange(t: Trig, g: Registry, lat: real, lon: real, name: string, data: Record): (r: Added)
    ensures r.registry.groups.Keys == g.groups.Keys + {(lat, lon)}
    ensures var before := Group(g, (lat, lon));
            var grown := r.registry.groups[(lat, lon)];
            |grown| == |before| + 1 && grown[..|before|] == before && grown[|before|] == name
    ensures forall l :: l in g.groups && l != (lat, lon) ==> r.registry.groups[l] == g.groups[l]
    ensures var size := |Group(g, (lat, lon))| + 1;
            r.placement == Offset(t, lat, lon, size - 1, size)
    ensures r.registry.markers.Keys == g.markers.Keys + {name}
    ensures forall n :: n in g.markers && n != name ==> r.registry.markers[n] == g.markers[n]
    ensures r.registry.markers[name]
            == Marker(LatLongToVector3(t, r.placement.lat, r.placement.lon, MarkerRadius), NamedRecord(name, data))
  {
    var loc := (lat, lon);
    var group := Group(g, loc) + [name];
    var index := |group| - 1;
    var p := Offset(t, lat, lon, index, |group|);
    var marker := Marker(LatLongToVector3(t, p.lat, p.lon, MarkerRadius), NamedRecord(name, data));
    assert group[..index] == Group(g, loc);
    Added(Registry(g.groups[loc := group], g.markers[name := marker]), p)
  }

  /** Adding an exchange keeps every registered name backed by a marker. */
  lemma AddKeepsConsistent(t: Trig, g: Registry, lat: real, lon: real, name: string, data: Record)
    requires Consistent(g)
    ensures Consistent(AddExchange(t, g, lat, lon, name, data).registry)
  {
    var r := AddExchange(t, g, lat, lon, name, data).registry;
    var loc := (lat, lon);
    var before := Group(g, loc);
    forall l, i | l in r.groups && 0 <= i < |r.groups[l]| ensures r.groups[l][i] in r.markers {
      if l == loc {
        if i < |before| {
          assert r.groups[l][..|before|][i] == before[i];
          assert before[i] in g.markers;
        }
      } else {
        assert r.groups[l][i] in g.markers;
      }
    }
  }

  /** The first exchange at a location sits due east of it (angle 0), 1.5 degrees of longitude away. */
  lemma FirstAtLocation(t: Trig, g: Registry, lat: real, lon: real, name: string, data: Record)
    requires ValidTrig(t) && (lat, lon) !in g.groups
    ensures var p := AddExchange(t, g, lat, lon, name, data).placement;
            p == Placement(0, 0.0, lat, lon + 1.5)
  {
    var p := AddExchange(t, g, lat, lon, name, data).placement;
    assert p.angle * 8.0 == 0.0;
  }

  /** While a location holds at most eight exchanges, member `i` sits at the angle `i * pi / 4`. */
  lemma FirstEightEvenlySpaced(t: Trig, g: Registry, lat: real, lon: real, name: string, data: Record)
    requires |Group(g, (lat, lon))| < 8
    ensures var p := AddExchange(t, g, lat, lon, name, data).placement;
            p.angle == p.index as real * t.pi / 4.0
  {
    var p := AddExchange(t, g, lat, lon, name, data).placement;
    assert p.angle * 8.0 == p.index as real * t.pi * 2.0;
  }

  /** `a/b < c/d` for positive denominators when `a*d < c*b`. */
  lemma QuotientLess(a: real, b: real, c: real, d: real)
    requires b > 0.0 && d > 0.0 && a * d < c * b
    ensures a / b < c / d
  {
    assert a / b == (a * d) / (b * d);
    assert c / d == (c * b) / (b * d);
    assert (c * b) / (b * d) - (a * d) / (b * d) == (c * b - a * d) / (b * d);
  }

  /**
   * The angle the `index`-th member of a location gets when it joins, as a
   * fraction of a full turn: `index / max(8, index + 1)`.
   */
  lemma TurnFractionIncreases(i: nat, j: nat)
    requires i < j
    ensures (i as real) / (Spread(i + 1) as real) < (j as real) / (Spread(j + 1) as real) < 1.0
  {
    var mi, mj := Spread(i + 1), Spread(j + 1);
    assert i * mj < j * mi by {
      if j < 8 {
      } else if i < 8 {
        assert i * mj <= 7 * mj;
        assert 8 * j <= j * mi;
        assert 7 * (j + 1) < 8 * j;
      } else {
        assert i * (j + 1) < j * (i + 1);
      }
    }
    assert (i * mj) as real == (i as real) * (mj as real);
    assert (j * mi) as real == (j as real) * (mi as real);
    QuotientLess(i as real, mi as real, j as real, mj as real);
    assert j < mj;
    assert (j as real) / (mj as real) < 1.0 by {
      QuotientLess(j as real, mj as real, 1.0, 1.0);
    }
  }

  /**
   * Members of one location get strictly increasing angles below a full
   * turn, so no two of them are ever placed in the same direction: past
   * eight members the spacing shrinks, but offsets never coincide.
   */
  lemma AnglesIncrease(t: Trig, lat: real, lon: real, i: nat, j: nat)
    requires ValidTrig(t) && i < j
    ensures Offset(t, lat, lon, i, i + 1).angle < Offset(t, lat, lon, j, j + 1).angle < 2.0 * t.pi
  {
    var turn := 2.0 * t.pi;
    var ai := Offset(t, lat, lon, i, i + 1).angle;
    var aj := Offset(t, lat, lon, j, j + 1).angle;
    var mi, mj := Spread(i + 1) as real, Spread(j + 1) as real;
    TurnFractionIncreases(i, j);
    AngleIsFraction(ai, mi, i as real, t.pi);
    AngleIsFraction(aj, mj, j as real, t.pi);
    FractionsOfTurn(ai, aj, (i as real) / mi, (j as real) / mj, turn);
  }

  lemma FractionsOfTurn(ai: real, aj: real, fi: real, fj: real, turn: real)
    requires turn > 0.0 && fi < fj < 1.0
    requires ai == fi * turn && aj == fj * turn
    ensures ai < aj < turn
  {
  }

  /** From `a * m == k * pi * 2` with `m > 0`: `a` is the fraction `k / m` of a full turn. */
  lemma AngleIsFraction(a: real, m: real, k: real, pi: real)
    requires m > 0.0 && a * m == k * pi * 2.0
    ensures a == (k / m) * (2.0 * pi)
  {
    assert (k / m) * (2.0 * pi) * m == k * pi * 2.0;
  }

  /** One exchange to register: where, under which name, and with which fields. */
  datatype Listing = Listing(lat: real, lon: real, name: string, data: Record)

  /** The globe after registering one listing. */
  function Register(t: Trig, g: Registry, l: Listing): Registry
  {
    AddExchange(t, g, l.lat, l.lon, l.name, l.data).registry
  }

  /** Registering the listings in order, as the exchange list is walked. */
  function AddAll(t: Trig, g: Registry, ls: seq<Listing>): Registry
    decreases |ls|
  {
    if |ls| == 0 then g
    else AddAll(t, Register(t, g, ls[0]), ls[1..])
  }

  /** The names of the listings at one location, in listing order. */
  function NamesAt(ls: seq<Listing>, loc: Location): (names: seq<string>)
    ensures forall n :: n in names <==> exists i :: 0 <= i < |ls| && ls[i].name == n && (ls[i].lat, ls[i].lon) == loc
  {
    if |ls| == 0 then []
    else (if (ls[0].lat, ls[0].lon) == loc then [ls[0].name] else []) + NamesAt(ls[1..], loc)
  }

  /** Adding an exchange extends its own location's group by its name and leaves every other group as it was. */
  lemma GroupAfterAdd(t: Trig, g: Registry, l: Listing, loc: Location)
    ensures Group(Register(t, g, l), loc)
            == if loc == (l.lat, l.lon) then Group(g, loc) + [l.name] else Group(g, loc)
  {
    var r := AddExchange(t, g, l.lat, l.lon, l.name, l.data).registry;
    if loc == (l.lat, l.lon) {
      var before := Group(g, loc);
      var grown := r.groups[loc];
      assert grown == grown[..|before|] + [grown[|before|]];
    }
  }

  /**
   * After a walk of listings, the group at every location is its earlier
   * group followed by the names listed there, in listing order: the group
   * records registration order and an index, once given, stays with its
   * name.
   */
  lemma {:induction false} AddAllGroups(t: Trig, g: Registry, ls: seq<Listing>, loc: Location)
    ensures Group(AddAll(t, g, ls), loc) == Group(g, loc) + NamesAt(ls, loc)
    decreases |ls|
  {
    if |ls| == 0 {
      assert Group(g, loc) + [] == Group(g, loc);
    } else {
      var l := ls[0];
      var g1 := Register(t, g, l);
      AddAllGroups(t, g1, ls[1..], loc);
      GroupAfterAdd(t, g, l, loc);
      var head := if (l.lat, l.lon) == loc then [l.name] else [];
      assert NamesAt(ls, loc) == head + NamesAt(ls[1..], loc);
      assert Group(g1, loc) == Group(g, loc) + head;
      assert AddAll(t, g, ls) == AddAll(t, g1, ls[1..]);
      ConcatAssoc(Group(g, loc), head, NamesAt(ls[1..], loc));
    }
  }

  lemma ConcatAssoc(a: seq<string>, b: seq<string>, c: seq<string>)
    ensures (a + b) + c == a + (b + c)
  {
  }

  /** Registering listings one after another keeps every registered name backed by a marker. */
  lemma {:induction false} AddAllKeepsConsistent(t: Trig, g: Registry, ls: seq<Listing>)
    requires Consistent(g)
    ensures Consistent(AddAll(t, g, ls))
    decreases |ls|
  {
    if |ls| > 0 {
      AddKeepsConsistent(t, g, ls[0].lat, ls[0].lon, ls[0].name, ls[0].data);
      AddAllKeepsConsistent(t, Register(t, g, ls[0]), ls[1..]);
    }
  }

  /**
   * `updateExchangeData(name, data)`: the marker's record becomes
   * `{...userData, ...data}`, so the given fields win and every other field
   * stays; an unknown name changes nothing. Positions and groups are never
   * touched.
   */
  function UpdateExchangeData(g: Registry, name: string, data: Record): (r: Registry)
    ensures r.groups == g.groups
    ensures r.markers.Keys == g.markers.Keys
    ensures forall n :: n in g.markers && n != name ==> r.markers[n] == g.markers[n]
    ensures name !in g.markers ==> r == g
    ensures name in g.markers ==>
      var before := g.markers[name].userData;
      var after := r.markers[name].userData;
      && r.markers[name].position == g.markers[name].position
      && after.Keys == before.Keys + data.Keys
      && (forall f :: f in data ==> after[f] == data[f])
      && (forall f :: f in before && f !in data ==> after[f] == before[f])
  {
    if name in g.markers then
      var m := g.markers[name];
      g.(markers := g.markers[name := m.(userData := m.userData + data)])
    else g
  }

  /** Applying the same update twice is the same as applying it once. */
  lemma UpdateIdempotent(g: Registry, name: string, data: Record)
    ensures UpdateExchangeData(UpdateExchangeData(g, name, data), name, data) == UpdateExchangeData(g, name, data)
  {
    var once := UpdateExchangeData(g, name, data);
    var twice := UpdateExchangeData(once, name, data);
    if name in g.markers {
      assert twice.markers[name].userData == once.markers[name].userData;
      assert twice.markers == once.markers;
    }
  }

  /** Updates keep every registered name backed by a marker. */
  lemma UpdateKeepsConsistent(g: Registry, name: string, data: Record)
    requires Consistent(g)
    ensures Consistent(UpdateExchangeData(g, name, data))
  {
  }
}
