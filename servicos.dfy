/**
 * The service layer of Projeto/services.py: `SistemaReservas` keeps clients and
 * administrators by email, articles and categories by id, and reservations by id with
 * an incrementing id counter.
 */
module Servicos {
  import opened Wrappers
  import Repository
  import Reservations
  import opened Modelos

  function ArtigoId(a: ArtigoDesportivo): int { a.id }

  /** The articles whose category has the given id. */
  function DaCategoria(categoriaId: int): ArtigoDesportivo -> bool {
    (a: ArtigoDesportivo) => a.categoria.id == categoriaId
  }

  /** The available articles of `s`, in order. */
  function Disponiveis(s: seq<ArtigoDesportivo>): (r: seq<ArtigoDesportivo>)
    reads s
    ensures |r| <= |s|
    ensures forall k :: 0 <= k < |r| ==> r[k] in s && r[k].disponivel
  {
    if s == [] then []
    else Disponiveis(s[..|s| - 1]) + (if s[|s| - 1].disponivel then [s[|s| - 1]] else [])
  }

  /** An article is kept exactly when it is in the list and available. */
  lemma {:induction false} DisponiveisMembership(s: seq<ArtigoDesportivo>, a: ArtigoDesportivo)
    ensures a in Disponiveis(s) <==> a in s && a.disponivel
  {
    if s != [] {
      var init := s[..|s| - 1];
      assert s == init + [s[|s| - 1]];
      DisponiveisMembership(init, a);
    }
  }

  /** The articles found for each id, in order; ids without an article contribute nothing. */
  function ArtigosDe(artigos: seq<ArtigoDesportivo>, ids: seq<int>): (r: seq<ArtigoDesportivo>)
    ensures |r| <= |ids|
    ensures forall k :: 0 <= k < |r| ==> r[k] in artigos
  {
    if ids == [] then []
    else
      ArtigosDe(artigos, ids[..|ids| - 1]) +
      match Repository.Find(artigos, ArtigoId, ids[|ids| - 1])
      case None => []
      case Some(a) => [a]
  }

  /** When every id has an article, the list holds exactly one found article per id, in order. */
  lemma {:induction false} ArtigosDeAllFound(artigos: seq<ArtigoDesportivo>, ids: seq<int>)
    requires forall k :: 0 <= k < |ids| ==> Repository.Find(artigos, ArtigoId, ids[k]).Some?
    ensures |ArtigosDe(artigos, ids)| == |ids|
    ensures forall k :: 0 <= k < |ids| ==> Some(ArtigosDe(artigos, ids)[k]) == Repository.Find(artigos, ArtigoId, ids[k])
  {
    if ids != [] {
      ArtigosDeAllFound(artigos, ids[..|ids| - 1]);
    }
  }

  class SistemaReservas {
    var clientes: map<string, Cliente>
    var administradores: map<string, Administrador>
    var categorias: map<int, Categoria>
    /** The articles in insertion order, as the dictionary keeps them. */
    var artigos: seq<ArtigoDesportivo>
    var reservas: map<int, Reserva>
    var proximoIdReserva: int

    /** Article ids are unique, every reservation is stored under its own id, and the counter is beyond every id. */
    ghost predicate Valid()
      reads this
    {
      && Repository.UniqueKeys(artigos, ArtigoId)
      && (forall id :: id in reservas ==> reservas[id].id == id)
      && (forall id :: id in reservas ==> id < proximoIdReserva)
    }

    /** The sample data: one racket-sports category, two available articles, one client and one administrator. */
    constructor ()
      ensures Valid() && reservas == map[] && proximoIdReserva == 1
      ensures |artigos| == 2 && artigos[0].id == 1 && artigos[1].id == 2
      ensures artigos[0].precoPorHora == 5.0 && artigos[1].precoPorHora == 2.5
      ensures artigos[0].disponivel && artigos[1].disponivel
      ensures artigos[0].categoria.id == 1 && artigos[1].categoria.id == 1
      ensures clientes.Keys == {"joao@email.com"} && administradores.Keys == {"admin@email.com"}
      ensures categorias.Keys == {1}
    {
      var catTenis := new Categoria(1, "Desportos de Raquete", "Artigos para ténis e modalidades semelhantes");
      var a1 := new ArtigoDesportivo(1, "Raquete Pro Staff", "Wilson", 5.0, catTenis, true);
      var a2 := new ArtigoDesportivo(2, "Pack 3 Bolas", "Dunlop", 2.5, catTenis, true);
      catTenis.AdicionarArtigo(a1);
      catTenis.AdicionarArtigo(a2);
      var c1 := new Cliente(1, "João Silva", "joao@email.com", "Rua Exemplo 123", "912345678");
      var admin := new Administrador(100, "admin", "admin@email.com", 1);
      clientes := map["joao@email.com" := c1];
      administradores := map["admin@email.com" := admin];
      categorias := map[1 := catTenis];
      artigos := [a1, a2];
      reservas := map[];
      proximoIdReserva := 1;
    }

    /** `artigos.get(id)`. */
    function Artigo(id: int): (a: Option<ArtigoDesportivo>)
      reads this
      ensures a.Some? ==> a.value in artigos && a.value.id == id
      ensures a.None? <==> forall k :: 0 <= k < |artigos| ==> artigos[k].id != id
    {
      Repository.Find(artigos, ArtigoId, id)
    }

    /** `login_cliente`: the client registered under that email, or None. */
    function LoginCliente(email: string): (c: Option<Cliente>)
      reads this
      ensures c.Some? <==> email in clientes
      ensures c.Some? ==> c.value == clientes[email]
    {
      if email in clientes then Some(clientes[email]) else None
    }

    /** `login_admin`: the administrator registered under that email, or None. */
    function LoginAdmin(email: string): (a: Option<Administrador>)
      reads this
      ensures a.Some? <==> email in administradores
      ensures a.Some? ==> a.value == administradores[email]
    {
      if email in administradores then Some(administradores[email]) else None
    }

    /** `listar_artigos`: every article in insertion order, or only the available ones. */
    function ListarArtigos(apenasDisponiveis: bool): (r: seq<ArtigoDesportivo>)
      reads this, artigos
      ensures !apenasDisponiveis ==> r == artigos
      ensures apenasDisponiveis ==> forall k :: 0 <= k < |r| ==> r[k] in artigos && r[k].disponivel
    {
      if apenasDisponiveis then Disponiveis(artigos) else artigos
    }

    /** `listar_artigos_por_categoria`: the articles of that category, restricted to available ones when asked. */
    function ListarArtigosPorCategoria(categoriaId: int, apenasDisponiveis: bool): (r: seq<ArtigoDesportivo>)
      reads this, artigos
      ensures forall k :: 0 <= k < |r| ==>
                r[k] in artigos && r[k].categoria.id == categoriaId && (apenasDisponiveis ==> r[k].disponivel)
    {
      var daCategoria := Repository.Filter(artigos, DaCategoria(categoriaId));
      if apenasDisponiveis then Disponiveis(daCategoria) else daCategoria
    }

    /** An available article is listed when only available ones are asked for, and an unavailable one is not. */
    lemma ListarArtigosMembership(a: ArtigoDesportivo)
      ensures a in ListarArtigos(true) <==> a in artigos && a.disponivel
    {
      DisponiveisMembership(artigos, a);
    }

    /** Exactly the articles of the category are listed, and only the available ones when asked. */
    lemma ListarArtigosPorCategoriaMembership(categoriaId: int, apenasDisponiveis: bool, a: ArtigoDesportivo)
      ensures a in ListarArtigosPorCategoria(categoriaId, apenasDisponiveis)
          <==> a in artigos && a.categoria.id == categoriaId && (apenasDisponiveis ==> a.disponivel)
    {
      var daCategoria := Repository.Filter(artigos, DaCategoria(categoriaId));
      Repository.FilterMembership(artigos, DaCategoria(categoriaId), a);
      DisponiveisMembership(daCategoria, a);
    }

    /** `gerir_stock`: false for an unknown id; otherwise that article's availability is set. */
    method GerirStock(artigoId: int, disponivel: bool) returns (ok: bool)
      requires Valid()
      modifies artigos
      ensures ok == Artigo(artigoId).Some?
      ensures ok ==> Artigo(artigoId).value.disponivel == disponivel
      ensures forall a :: a in artigos && a.id != artigoId ==> a.disponivel == old(a.disponivel)
    {
      var artigo := Artigo(artigoId);
      if artigo.None? {
        return false;
      }
      artigo.value.disponivel := disponivel;
      return true;
    }

    /** The id names an article, and that article is available. */
    ghost predicate Reservavel(id: int)
      reads this, artigos
    {
      Artigo(id).Some? && Artigo(id).value.disponivel
    }

    /** Every requested id names an available article. */
    ghost predicate Reservaveis(idsArtigos: seq<int>)
      reads this, artigos
    {
      forall k :: 0 <= k < |idsArtigos| ==> Reservavel(idsArtigos[k])
    }

    /** The loop of `criar_reserva`: collect the requested articles, giving up at the first missing or unavailable one. */
    method EscolherArtigos(idsArtigos: seq<int>) returns (escolhidos: Option<seq<ArtigoDesportivo>>)
      ensures escolhidos.Some? <==> Reservaveis(idsArtigos)
      ensures escolhidos.Some? ==> escolhidos.value == ArtigosDe(artigos, idsArtigos)
      ensures escolhidos.Some? ==> |escolhidos.value| == |idsArtigos|
      ensures escolhidos.Some? ==> forall k :: 0 <= k < |idsArtigos| ==> escolhidos.value[k].id == idsArtigos[k]
    {
      var lista: seq<ArtigoDesportivo> := [];
      var k := 0;
      while k < |idsArtigos|
        invariant 0 <= k <= |idsArtigos|
        invariant forall j :: 0 <= j < k ==> Reservavel(idsArtigos[j])
        invariant lista == ArtigosDe(artigos, idsArtigos[..k])
      {
        var artigo := Artigo(idsArtigos[k]);
        if artigo.None? {
          assert !Reservavel(idsArtigos[k]);
          return None;
        }
        if !artigo.value.VerificarDisponibilidade() {
          assert !Reservavel(idsArtigos[k]);
          return None;
        }
        assert idsArtigos[..k + 1][..k] == idsArtigos[..k];
        assert ArtigosDe(artigos, idsArtigos[..k + 1]) == lista + [artigo.value];
        lista := lista + [artigo.value];
        k := k + 1;
      }
      assert idsArtigos[..k] == idsArtigos;
      assert Reservaveis(idsArtigos);
      ArtigosDeAllFound(artigos, idsArtigos);
      return Some(lista);
    }

    /** The reservation `criar_reserva` builds: its total computed, then confirmed. */
    static method NovaReserva(id: int, cliente: Cliente, escolhidos: seq<ArtigoDesportivo>, dataInicio: int, dataFim: int)
      returns (r: Reserva)
      ensures fresh(r)
      ensures r.id == id && r.cliente == cliente && r.artigos == escolhidos
      ensures r.dataInicio == dataInicio && r.dataFim == dataFim && r.estado == Confirmada
      ensures r.valorTotal == Soma(escolhidos, Reservations.Hours(dataInicio, dataFim))
    {
      r := new Reserva(id, cliente, escolhidos, dataInicio, dataFim);
      var _ := r.CalcularTotal();
      r.Confirmar();
    }

    /**
     * `criar_reserva`: refused when the end is not after the start or when any requested
     * article is missing or unavailable, and then nothing changes. Otherwise a Confirmada
     * reservation with the next id and the computed total is stored, the counter moves on
     * by one and the client's history grows by the reservation; availability is untouched.
     */
    method CriarReserva(cliente: Cliente, idsArtigos: seq<int>, dataInicio: int, dataFim: int) returns (r: Reserva?)
      requires Valid()
      modifies this, cliente
      ensures Valid()
      ensures r != null <==> dataInicio < dataFim && old(Reservaveis(idsArtigos))
      ensures r == null ==>
                reservas == old(reservas) && proximoIdReserva == old(proximoIdReserva)
                && cliente.reservas == old(cliente.reservas)
      ensures r != null ==>
                fresh(r) && r.id == old(proximoIdReserva) && r.id !in old(reservas)
                && reservas == old(reservas)[r.id := r] && proximoIdReserva == old(proximoIdReserva) + 1
                && cliente.reservas == old(cliente.reservas) + [r]
      ensures r != null ==> r.estado == Confirmada && r.cliente == cliente
      ensures r != null ==> r.dataInicio == dataInicio && r.dataFim == dataFim
      ensures r != null ==> r.artigos == ArtigosDe(artigos, idsArtigos) && |r.artigos| == |idsArtigos|
      ensures r != null ==> r.valorTotal == Soma(r.artigos, Reservations.Hours(dataInicio, dataFim))
      ensures unchanged(this`artigos, this`clientes, this`administradores, this`categorias)
    {
      if dataFim <= dataInicio {
        return null;
      }
      var escolhidos := EscolherArtigos(idsArtigos);
      if escolhidos.None? {
        return null;
      }
      r := NovaReserva(proximoIdReserva, cliente, escolhidos.value, dataInicio, dataFim);
      ghost var estado, total := r.estado, r.valorTotal;
      Guardar(r);
      cliente.FazerReserva(r);
      assert r.estado == estado && r.valorTotal == total;
    }

    /** Stores a new reservation under the next id and moves the counter on by one. */
    method Guardar(r: Reserva)
      requires Valid() && r.id == proximoIdReserva
      modifies this
      ensures Valid()
      ensures r.id !in old(reservas)
      ensures reservas == old(reservas)[r.id := r] && proximoIdReserva == old(proximoIdReserva) + 1
      ensures unchanged(this`artigos, this`clientes, this`administradores, this`categorias)
    {
      reservas := reservas[r.id := r];
      proximoIdReserva := proximoIdReserva + 1;
    }

    /** `cancelar_reserva`: false for an unknown id; otherwise that reservation becomes Cancelada from any state. */
    method CancelarReserva(reservaId: int) returns (ok: bool)
      requires Valid()
      modifies set id | id in reservas :: reservas[id]
      ensures ok == (reservaId in reservas)
      ensures ok ==> reservas[reservaId].estado == Cancelada
      ensures forall id :: id in reservas && id != reservaId ==> reservas[id].estado == old(reservas[id].estado)
      ensures forall id :: id in reservas ==> reservas[id].valorTotal == old(reservas[id].valorTotal)
    {
      if reservaId !in reservas {
        return false;
      }
      reservas[reservaId].estado := Cancelada;
      return true;
    }
  }
}
