/**
 * The tuple-based prototype of system.py: users are (username, password) pairs,
 * articles are (name, quantity) pairs, and an article is available while its quantity
 * is positive.
 */
module Booking {
  import opened Wrappers
  import Repository

  datatype Utilizador = Utilizador(username: string, passe: string)
  datatype Categoria = Categoria(nome: string, descricao: string)
  datatype Artigo = Artigo(nome: string, quantidade: int)
  datatype Reserva = Reserva(nomeCliente: string, dia: string, termino: string, nomeArtigo: string, quantidade: int)

  function Nome(a: Artigo): string { a.nome }

  function EmStock(): Artigo -> bool {
    (a: Artigo) => a.quantidade > 0
  }

  /** The articles a reservation of `quantidade` units of `nome` can be booked against. */
  function Satisfaz(nome: string, quantidade: int): Artigo -> bool {
    (a: Artigo) => a.nome == nome && a.quantidade >= quantidade
  }

  /** `n` copies of `x`. */
  function Copies<T>(x: T, n: nat): (r: seq<T>)
    ensures |r| == n && forall k :: 0 <= k < n ==> r[k] == x
  {
    if n == 0 then [] else Copies(x, n - 1) + [x]
  }

  /** An article is listed as available exactly when it is stored with a positive quantity. */
  lemma DisponiveisMembership(artigos: seq<Artigo>, a: Artigo)
    ensures a in Repository.Filter(artigos, EmStock()) <==> a in artigos && a.quantidade > 0
  {
    Repository.FilterMembership(artigos, EmStock(), a);
  }

  class BookingSystem {
    var utilizadores: seq<Utilizador>
    var artigos: seq<Artigo>
    var categorias: seq<Categoria>
    var reservas: seq<Reserva>
    var userAutenticado: Option<Utilizador>

    constructor ()
      ensures utilizadores == [] && artigos == [] && categorias == [] && reservas == [] && userAutenticado == None
    {
      utilizadores := [];
      artigos := [];
      categorias := [];
      reservas := [];
      userAutenticado := None;
    }

    /** `login`: succeeds exactly when the pair is registered, and then that pair is the authenticated user. */
    method Login(username: string, passe: string) returns (ok: bool)
      modifies this
      ensures ok <==> Utilizador(username, passe) in utilizadores
      ensures ok ==> userAutenticado == Some(Utilizador(username, passe))
      ensures !ok ==> userAutenticado == old(userAutenticado)
      ensures utilizadores == old(utilizadores) && artigos == old(artigos) && categorias == old(categorias)
      ensures reservas == old(reservas)
    {
      var k := 0;
      while k < |utilizadores|
        invariant 0 <= k <= |utilizadores|
        invariant Utilizador(username, passe) !in utilizadores[..k]
        invariant unchanged(this)
      {
        if username == utilizadores[k].username && passe == utilizadores[k].passe {
          userAutenticado := Some(utilizadores[k]);
          return true;
        }
        assert utilizadores[..k + 1] == utilizadores[..k] + [utilizadores[k]];
        k := k + 1;
      }
      assert utilizadores[..k] == utilizadores;
      return false;
    }

    /** `adicionar_utilizador`: append the pair; a username may be registered twice. */
    method AdicionarUtilizador(username: string, passe: string)
      modifies this
      ensures utilizadores == old(utilizadores) + [Utilizador(username, passe)]
      ensures artigos == old(artigos) && categorias == old(categorias) && reservas == old(reservas)
      ensures userAutenticado == old(userAutenticado)
    {
      utilizadores := utilizadores + [Utilizador(username, passe)];
    }

    /** `logout`: back to no authenticated user. */
    method Logout()
      modifies this
      ensures userAutenticado == None
      ensures utilizadores == old(utilizadores) && artigos == old(artigos) && categorias == old(categorias)
      ensures reservas == old(reservas)
    {
      userAutenticado := None;
    }

    /** `adicionar_categoria`: append the pair and return it. */
    method AdicionarCategoria(nome: string, descricao: string) returns (c: Categoria)
      modifies this
      ensures c == Categoria(nome, descricao) && categorias == old(categorias) + [c]
      ensures utilizadores == old(utilizadores) && artigos == old(artigos) && reservas == old(reservas)
      ensures userAutenticado == old(userAutenticado)
    {
      c := Categoria(nome, descricao);
      categorias := categorias + [c];
    }

    /** `adicionar_artigo`: append the pair and return it. */
    method AdicionarArtigo(nome: string, quantidade: int) returns (a: Artigo)
      modifies this
      ensures a == Artigo(nome, quantidade) && artigos == old(artigos) + [a]
      ensures utilizadores == old(utilizadores) && categorias == old(categorias) && reservas == old(reservas)
      ensures userAutenticado == old(userAutenticado)
    {
      a := Artigo(nome, quantidade);
      artigos := artigos + [a];
    }

    /** `remover_artigo`: only the first article with that name goes; false and no change when there is none. */
    method RemoverArtigo(nome: string) returns (ok: bool)
      modifies this
      ensures ok == Repository.HasKey(old(artigos), Nome, nome)
      ensures ok ==> var i := Repository.FindIndex(old(artigos), Nome, nome).value;
                     artigos == old(artigos)[..i] + old(artigos)[i + 1..]
      ensures !ok ==> artigos == old(artigos)
      ensures utilizadores == old(utilizadores) && categorias == old(categorias) && reservas == old(reservas)
      ensures userAutenticado == old(userAutenticado)
    {
      var k := 0;
      while k < |artigos|
        invariant 0 <= k <= |artigos|
        invariant forall j :: 0 <= j < k ==> artigos[j].nome != nome
        invariant unchanged(this)
      {
        if artigos[k].nome == nome {
          assert Repository.FindIndex(artigos, Nome, nome) == Some(k);
          assert artigos[..k] + [artigos[k]] + artigos[k + 1..] == artigos;
          assert artigos[k] !in artigos[..k];
          artigos := Repository.RemoveFirst(artigos, artigos[k]);
          return true;
        }
        k := k + 1;
      }
      return false;
    }

    /** `lista_artigos`: every article, in order. */
    method ListaArtigos() returns (r: seq<Artigo>)
      ensures r == artigos
    {
      r := artigos;
    }

    /** `artigos_disponiveis`: the articles with a positive quantity, in stored order. */
    method ArtigosDisponiveis() returns (disponiveis: seq<Artigo>)
      ensures disponiveis == Repository.Filter(artigos, EmStock())
      ensures forall k :: 0 <= k < |disponiveis| ==> disponiveis[k] in artigos && disponiveis[k].quantidade > 0
    {
      disponiveis := [];
      var k := 0;
      while k < |artigos|
        invariant 0 <= k <= |artigos|
        invariant disponiveis == Repository.Filter(artigos[..k], EmStock())
      {
        assert artigos[..k + 1] == artigos[..k] + [artigos[k]];
        Repository.FilterConcat(artigos[..k], [artigos[k]], EmStock());
        if artigos[k].quantidade > 0 {
          disponiveis := disponiveis + [artigos[k]];
        }
        k := k + 1;
      }
      assert artigos[..k] == artigos;
    }

    /**
     * `criar_reserva`: the reservation is appended once for every stored article with that
     * name and at least the requested quantity; quantities are never decremented.
     */
    method CriarReserva(nomeCliente: string, dia: string, termino: string, nomeArtigo: string, quantidade: int)
      modifies this
      ensures var n := |Repository.Filter(artigos, Satisfaz(nomeArtigo, quantidade))|;
              reservas == old(reservas) + Copies(Reserva(nomeCliente, dia, termino, nomeArtigo, quantidade), n)
      ensures artigos == old(artigos) && utilizadores == old(utilizadores) && categorias == old(categorias)
      ensures userAutenticado == old(userAutenticado)
    {
      var reserva := Reserva(nomeCliente, dia, termino, nomeArtigo, quantidade);
      ghost var antes := reservas;
      var k := 0;
      while k < |artigos|
        invariant 0 <= k <= |artigos|
        invariant reservas == antes + Copies(reserva, |Repository.Filter(artigos[..k], Satisfaz(nomeArtigo, quantidade))|)
        invariant artigos == old(artigos) && utilizadores == old(utilizadores) && categorias == old(categorias)
        invariant userAutenticado == old(userAutenticado)
      {
        assert artigos[..k + 1] == artigos[..k] + [artigos[k]];
        Repository.FilterConcat(artigos[..k], [artigos[k]], Satisfaz(nomeArtigo, quantidade));
        if artigos[k].nome == nomeArtigo && artigos[k].quantidade >= quantidade {
          reservas := reservas + [reserva];
        }
        k := k + 1;
      }
      assert artigos[..k] == artigos;
    }
  }
}
